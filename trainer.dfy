/**
 * Model of the training part of src/markovtrainer.rs.
 *
 * Producers parse log lines and forward the processed messages that have a
 * user and at least one word.  The aggregator folds the received messages,
 * in the order received, into a map from user to that user's model: it makes
 * sure the user has an entry, then, for a message of words w1..wn, issues
 * the calls insert(w1, ""), insert(w2, w1), ..., insert(wn, w(n-1)) and
 * finally insert("", wn).
 *
 * The `insert(cur, prev)` the aggregator calls is not part of this model,
 * so a user's model is the list of the calls issued on it, in order.
 */
module MarkovTrainer {
  import opened Wrappers
  import LogParse
  import opened MsgProcessor

  /** One call `markov.insert(cur, prev)`. */
  datatype InsertCall = InsertCall(cur: string, prev: string)

  /** What a user's model has received so far. */
  type Registry = map<string, seq<InsertCall>>

  // ---------------------------------------------------------------------
  // The producer side.

  /** The forwarding test of a producer: a user and at least one word. */
  predicate Forwarded(pm: ProcessedMessage) {
    pm.user != [] && pm.words != []
  }

  /** What a producer sends for one log line, if anything. */
  function ProduceLine(line: string): Option<ProcessedMessage> {
    match LogParse.FromKonversation(line)
    case None => None
    case Some(msg) =>
      var processed := FromLogMessage(msg);
      if Forwarded(processed) then Some(processed) else None
  }

  /**
   * A forwarded message comes from a line holding the log pattern; its user
   * is non-empty, lower-case and free of `[`, `(` and `{`, and it has at
   * least one word, each lower-case and made of kept characters only.
   */
  lemma ProduceLineSpec(line: string)
    ensures ProduceLine(line).Some? ==>
      var pm := ProduceLine(line).value;
      && LogParse.PatternOccurs(line)
      && pm.user != [] && pm.words != []
      && (forall i :: 0 <= i < |pm.user| ==> !IsUserCut(pm.user[i]) && !Text.IsAsciiUpper(pm.user[i]))
      && (forall w, i :: w in pm.words && 0 <= i < |w| ==> !Text.IsAsciiUpper(w[i]) && IsKept(w[i]))
  {
    LogParse.FromKonversationSpec(line);
    if ProduceLine(line).Some? {
      var msg := LogParse.FromKonversation(line).value;
      var pm := ProduceLine(line).value;
      NormalizeUserSpec(msg.user);
      forall w, i | w in pm.words && 0 <= i < |w| ensures !Text.IsAsciiUpper(w[i]) && IsKept(w[i]) {
        var j :| 0 <= j < |pm.words| && pm.words[j] == w;
        CleanWordSpec(UrlFree(Text.SplitWhitespace(msg.msg))[j]);
      }
    }
  }

  // ---------------------------------------------------------------------
  // The calls issued for one message.

  /** The calls the aggregator issues for a message with these words, in order. */
  function InsertCalls(words: seq<string>): (calls: seq<InsertCall>)
    ensures words == [] ==> calls == []
    ensures words != [] ==> |calls| == |words| + 1
  {
    if words == [] then []
    else
      seq(|words|, i requires 0 <= i < |words| => InsertCall(words[i], if i == 0 then "" else words[i - 1]))
      + [InsertCall("", words[|words| - 1])]
  }

  function Curs(calls: seq<InsertCall>): (r: seq<string>)
    ensures |r| == |calls| && forall i :: 0 <= i < |calls| ==> r[i] == calls[i].cur
  {
    seq(|calls|, i requires 0 <= i < |calls| => calls[i].cur)
  }

  function Prevs(calls: seq<InsertCall>): (r: seq<string>)
    ensures |r| == |calls| && forall i :: 0 <= i < |calls| ==> r[i] == calls[i].prev
  {
    seq(|calls|, i requires 0 <= i < |calls| => calls[i].prev)
  }

  /**
   * The calls for a non-empty message read the sentence framed by the empty
   * string twice: the current words are the words followed by "", the
   * previous words are "" followed by the words, and each call's current
   * word is the next call's previous word.
   */
  lemma InsertCallsChain(words: seq<string>)
    requires words != []
    ensures Curs(InsertCalls(words)) == words + [""]
    ensures Prevs(InsertCalls(words)) == [""] + words
    ensures var calls := InsertCalls(words);
      forall i :: 0 <= i < |calls| - 1 ==> calls[i + 1].prev == calls[i].cur
  {
    var calls := InsertCalls(words);
    assert forall i :: 0 <= i < |words| ==> calls[i] == InsertCall(words[i], if i == 0 then "" else words[i - 1]);
    assert calls[|words|] == InsertCall("", words[|words| - 1]);
    var curs, prevs := Curs(calls), Prevs(calls);
    assert |curs| == |words + [""]| && forall i :: 0 <= i < |curs| ==> curs[i] == (words + [""])[i];
    assert |prevs| == |[""] + words| && forall i :: 0 <= i < |prevs| ==> prevs[i] == ([""] + words)[i];
  }

  /**
   * The empty string marks both the start and the end of a message, and a
   * word can itself be empty (a field with no kept characters): the calls
   * for the words ["a"] are then the first calls for ["a", ""], and both
   * messages issue insert("", "a").
   */
  lemma EmptyWordLooksLikeEnd()
    ensures InsertCalls(["a"]) == [InsertCall("a", ""), InsertCall("", "a")]
    ensures InsertCalls(["a", ""]) == [InsertCall("a", ""), InsertCall("", "a"), InsertCall("", "")]
  {
    var one, two := InsertCalls(["a"]), InsertCalls(["a", ""]);
    assert one[0] == InsertCall("a", "") && one[1] == InsertCall("", "a");
    assert two[0] == InsertCall("a", "") && two[1] == InsertCall("", "a") && two[2] == InsertCall("", "");
  }

  // ---------------------------------------------------------------------
  // The aggregator.

  /** The users of a list of messages. */
  function Users(msgs: seq<ProcessedMessage>): set<string> {
    set m | m in msgs :: m.user
  }

  /** The calls the messages issue on `user`'s model, in the order received. */
  function CallsFor(msgs: seq<ProcessedMessage>, user: string): seq<InsertCall>
  {
    if msgs == [] then []
    else
      var last := msgs[|msgs| - 1];
      CallsFor(msgs[..|msgs| - 1], user) + if last.user == user then InsertCalls(last.words) else []
  }

  /** Messages for other users leave a user's calls alone. */
  lemma {:induction false} CallsForOthers(msgs: seq<ProcessedMessage>, user: string)
    requires forall m :: m in msgs ==> m.user != user
    ensures CallsFor(msgs, user) == []
  {
    if msgs != [] {
      CallsForOthers(msgs[..|msgs| - 1], user);
    }
  }

  /** A user's calls for two batches of messages are the calls for each batch, in order. */
  lemma {:induction false} CallsForAppend(a: seq<ProcessedMessage>, b: seq<ProcessedMessage>, user: string)
    ensures CallsFor(a + b, user) == CallsFor(a, user) + CallsFor(b, user)
    decreases |b|
  {
    if b == [] {
      assert a + b == a;
    } else {
      var front, last := b[..|b| - 1], b[|b| - 1];
      CallsForAppend(a, front, user);
      var tail := if last.user == user then InsertCalls(last.words) else [];
      assert (a + b)[..|a + b| - 1] == a + front && (a + b)[|a + b| - 1] == last;
      assert CallsFor(a + b, user) == CallsFor(a + front, user) + tail;
      assert CallsFor(b, user) == CallsFor(front, user) + tail;
      var ca, cf := CallsFor(a, user), CallsFor(front, user);
      assert ca + cf + tail == ca + (cf + tail);
    }
  }

  /**
   * Only the order of each user's own messages matters: swapping two
   * adjacent messages of different users changes no user's calls.
   */
  lemma CallsForSwap(a: seq<ProcessedMessage>, m1: ProcessedMessage, m2: ProcessedMessage,
                     b: seq<ProcessedMessage>, user: string)
    requires m1.user != m2.user
    ensures CallsFor(a + [m1, m2] + b, user) == CallsFor(a + [m2, m1] + b, user)
  {
    CallsForAppend(a + [m1, m2], b, user);
    CallsForAppend(a + [m2, m1], b, user);
    CallsForAppend(a, [m1, m2], user);
    CallsForAppend(a, [m2, m1], user);
    CallsForPair(m1, m2, user);
    CallsForPair(m2, m1, user);
  }

  lemma CallsForPair(m1: ProcessedMessage, m2: ProcessedMessage, user: string)
    requires m1.user != m2.user
    ensures CallsFor([m1, m2], user)
         == if m1.user == user then InsertCalls(m1.words) else if m2.user == user then InsertCalls(m2.words) else []
  {
    assert [m1, m2][..1] == [m1] && [m1][..0] == [];
    var c1 := if m1.user == user then InsertCalls(m1.words) else [];
    var c2 := if m2.user == user then InsertCalls(m2.words) else [];
    assert CallsFor([m1], user) == [] + c1 == c1;
    assert c1 == [] || c2 == [];
    assert c1 + [] == c1 && [] + c2 == c2;
  }

  /**
   * The aggregator loop of `markov_from_logs`: every received message gives
   * its user an entry, and a message with words issues its insert calls on
   * that entry.
   */
  method Aggregate(msgs: seq<ProcessedMessage>) returns (markovs: Registry)
    ensures markovs.Keys == Users(msgs)
    ensures forall user :: user in markovs ==> markovs[user] == CallsFor(msgs, user)
  {
    markovs := map[];
    for k := 0 to |msgs|
      invariant markovs.Keys == Users(msgs[..k])
      invariant forall user :: user in markovs ==> markovs[user] == CallsFor(msgs[..k], user)
    {
      var msg := msgs[k];
      assert msgs[..k + 1] == msgs[..k] + [msg];
      if msg.user !in markovs {
        CallsForOthers(msgs[..k], msg.user);
        markovs := markovs[msg.user := []];
      }
      AggregateStep(markovs, msgs[..k], msg);
      markovs := ApplyMessage(markovs, msg);
    }
    assert msgs[..|msgs|] == msgs;
  }

  /** A registry that holds the calls of `done` and has the user of `msg` holds those of one message more once `msg` is applied. */
  lemma AggregateStep(markovs: Registry, done: seq<ProcessedMessage>, msg: ProcessedMessage)
    requires markovs.Keys == Users(done) + {msg.user}
    requires forall user :: user in markovs ==> markovs[user] == CallsFor(done, user)
    ensures var after := markovs[msg.user := markovs[msg.user] + InsertCalls(msg.words)];
      && after.Keys == Users(done + [msg])
      && forall user :: user in after ==> after[user] == CallsFor(done + [msg], user)
  {
    var all := done + [msg];
    assert all[..|all| - 1] == done && all[|all| - 1] == msg;
    assert Users(all) == Users(done) + {msg.user} by {
      forall u ensures u in Users(all) <==> u in Users(done) + {msg.user} {
        if u in Users(all) {
          var m :| m in all && m.user == u;
        }
      }
    }
  }

  /** One round of the aggregator loop, on a registry that already has the user. */
  method ApplyMessage(markovs: Registry, msg: ProcessedMessage) returns (after: Registry)
    requires msg.user in markovs
    ensures after == markovs[msg.user := markovs[msg.user] + InsertCalls(msg.words)]
  {
    after := markovs;
    if msg.words == [] {
      assert markovs[msg.user] + InsertCalls(msg.words) == markovs[msg.user];
      assert markovs[msg.user := markovs[msg.user]] == markovs;
      return;
    }
    var words := msg.words;
    var markov := markovs[msg.user];
    for i := 0 to |words|
      invariant markov == markovs[msg.user] + InsertCalls(words)[..i]
    {
      var prev := if i == 0 then "" else words[i - 1];
      var cur := words[i];
      assert InsertCalls(words)[..i + 1] == InsertCalls(words)[..i] + [InsertCall(cur, prev)];
      markov := markov + [InsertCall(cur, prev)];
    }
    var last := InsertCall("", words[|words| - 1]);
    assert InsertCalls(words) == InsertCalls(words)[..|words|] + [last];
    assert markov + [last] == markovs[msg.user] + (InsertCalls(words)[..|words|] + [last]);
    markov := markov + [last];
    after := after[msg.user := markov];
  }
}
