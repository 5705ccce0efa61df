/**
 * Model of the `~impersonate` command of src/main.rs.
 *
 * A chat message whose first whitespace-separated token is `~impersonate`
 * is handled with the remaining tokens as arguments: the first names the
 * user to impersonate and the second is a hook word, further ones are
 * ignored.  The user's model is looked up by lower-cased name, then up to
 * MAX_ATTEMPTS chains are generated until one has at least MIN_LENGTH
 * words, which is joined with single spaces into the reply.
 *
 * The chain generator the command calls (`random_chain` with a hook word)
 * is not part of this model: each attempt's outcome is given by the caller
 * as `attempt(model, hook, number)`.  Sending the reply or the error back to
 * the channel is I/O and is left out; `Handle` returns what would be sent.
 */
module Impersonate {
  import opened Wrappers
  import opened Text

  /** The least number of words an accepted chain has (`min_length`). */
  const MIN_LENGTH: nat := 4
  /** The number of generation attempts (`max_length` in the source). */
  const MAX_ATTEMPTS: nat := 20

  datatype CommandImpersonate = CommandImpersonate(impersonated: string, hook: string)

  datatype HandleError =
    | BadSyntax                   // fewer than two arguments
    | UserNotFound(name: string)  // no model for the lower-cased name
    | ChainFailed(reason: string) // an attempt failed; its error is passed on
    | NoLongChain                 // every attempt gave a chain that is too short

  /** `CommandImpersonate::from`: the first two arguments, or a syntax error. */
  function FromArgs(words: seq<string>): (r: Result<CommandImpersonate, HandleError>)
    ensures r.Failure? <==> |words| < 2
    ensures r.Failure? ==> r.error == BadSyntax
    ensures r.Success? ==> r.value == CommandImpersonate(words[0], words[1])
  {
    if |words| < 1 then Failure(BadSyntax)
    else if |words| < 2 then Failure(BadSyntax)
    else Success(CommandImpersonate(words[0], words[1]))
  }

  /** Extra arguments after the hook word make no difference. */
  lemma FromArgsIgnoresExtra(words: seq<string>, extra: seq<string>)
    requires |words| >= 2
    ensures FromArgs(words + extra) == FromArgs(words)
  {
    assert (words + extra)[0] == words[0] && (words + extra)[1] == words[1];
  }

  /** Attempt `i` gave a chain that is too short. */
  predicate ShortChain<M(!new)>(attempt: (M, string, nat) -> Result<seq<string>, string>, m: M, hook: string, i: nat) {
    attempt(m, hook, i).Success? && |attempt(m, hook, i).value| < MIN_LENGTH
  }

  /**
   * `CommandImpersonate::handle`, up to sending: parse the arguments, look up
   * the model, try up to MAX_ATTEMPTS times for a long enough chain.
   * `attempts` is the number of chains generated.
   */
  method Handle<M(!new)>(markovs: map<string, M>, words: seq<string>,
                         attempt: (M, string, nat) -> Result<seq<string>, string>)
    returns (reply: Result<string, HandleError>, attempts: nat)
    ensures attempts <= MAX_ATTEMPTS
    ensures |words| < 2 <==> reply == Failure(BadSyntax)
    ensures |words| < 2 ==> attempts == 0
    ensures reply.Failure? && reply.error.UserNotFound? <==> |words| >= 2 && Lower(words[0]) !in markovs
    ensures reply.Failure? && reply.error.UserNotFound? ==> reply.error.name == words[0]
    ensures |words| >= 2 && Lower(words[0]) !in markovs ==> attempts == 0
    ensures |words| >= 2 && Lower(words[0]) in markovs ==>
      var m, hook := markovs[Lower(words[0])], Lower(words[1]);
      && attempts > 0
      && (forall i :: 0 <= i < attempts - 1 ==> ShortChain(attempt, m, hook, i))
      && (reply.Success? ==>
            && attempt(m, hook, attempts - 1).Success?
            && |attempt(m, hook, attempts - 1).value| >= MIN_LENGTH
            && reply.value == Join(attempt(m, hook, attempts - 1).value, " "))
      && (reply == Failure(NoLongChain) <==>
            attempts == MAX_ATTEMPTS && ShortChain(attempt, m, hook, attempts - 1))
      && (reply.Failure? && reply.error.ChainFailed? <==> attempt(m, hook, attempts - 1).Failure?)
      && (reply.Failure? && reply.error.ChainFailed? ==>
            reply.error.reason == attempt(m, hook, attempts - 1).error)
  {
    attempts := 0;
    var parsed := FromArgs(words);
    if parsed.Failure? {
      return Failure(parsed.error), attempts;
    }
    var cmd := parsed.value;
    var name := Lower(cmd.impersonated);
    if name !in markovs {
      return Failure(UserNotFound(cmd.impersonated)), attempts;
    }
    var markov := markovs[name];
    var hook := Lower(cmd.hook);
    var randomChain: seq<string> := [];
    var foundChain := false;
    while attempts < MAX_ATTEMPTS
      invariant attempts <= MAX_ATTEMPTS
      invariant forall i :: 0 <= i < attempts ==> ShortChain(attempt, markov, hook, i)
      invariant !foundChain
    {
      var outcome := attempt(markov, hook, attempts);
      attempts := attempts + 1;
      if outcome.Failure? {
        return Failure(ChainFailed(outcome.error)), attempts;
      }
      randomChain := outcome.value;
      if |randomChain| >= MIN_LENGTH {
        foundChain := true;
        break;
      }
    }
    if !foundChain {
      return Failure(NoLongChain), attempts;
    }
    reply := Success(Join(randomChain, " "));
  }

  /** The chat command that starts an impersonation. */
  const COMMAND: string := "~impersonate"

  /**
   * The dispatch in `main`: the arguments of a message whose first token is
   * exactly COMMAND, and nothing for any other message.
   */
  function Dispatch(msg: string): (r: Option<seq<string>>)
    ensures r.Some? <==> SplitWhitespace(msg) != [] && SplitWhitespace(msg)[0] == COMMAND
    ensures r.Some? ==> [COMMAND] + r.value == SplitWhitespace(msg)
  {
    var tokens := SplitWhitespace(msg);
    if tokens != [] && tokens[0] == COMMAND then Some(tokens[1..]) else None
  }

  /**
   * Typing the command and its arguments separated by single spaces gives
   * the arguments back.
   */
  lemma DispatchTyped(args: seq<string>)
    requires forall i :: 0 <= i < |args| ==> args[i] != [] && NoWhitespace(args[i])
    ensures Dispatch(Join([COMMAND] + args, " ")) == Some(args)
  {
    var parts := [COMMAND] + args;
    CommandIsToken();
    forall i | 0 <= i < |parts| ensures parts[i] != [] && NoWhitespace(parts[i]) {
      if i > 0 {
        assert parts[i] == args[i - 1];
      }
    }
    SplitJoin(parts);
    assert parts[1..] == args;
  }

  lemma CommandIsToken()
    ensures COMMAND != [] && NoWhitespace(COMMAND)
  {
    var c := COMMAND;
    assert forall i :: 0 <= i < |c| ==> c[i] != ' ' && !IsWhitespace(c[i]);
  }

  /** A message whose first token is only a prefix of the command is not dispatched. */
  lemma DispatchNeedsWholeToken()
    ensures Dispatch("~impersonator bob hi").None?
  {
    var msg, first, rest := "~impersonator bob hi", "~impersonator", " bob hi";
    assert msg == first + rest;
    assert NoWhitespace(first);
    LeadingWordOfWordThenSpace(first, rest);
    assert LeadingWord(msg) == first;
    assert !IsWhitespace(msg[0]);
    assert SplitWhitespace(msg) == [first] + SplitWhitespace(msg[|first|..]);
    assert |first| != |COMMAND|;
  }
}
