# markov-irc, modelled in Dafny

markov-irc is an IRC bot that imitates the people of a channel. It reads
Konversation chat logs and builds one word model per user. When someone types
`~impersonate <user> <hook>`, it answers with a generated sentence of at least
four words.

This project models the core of the bot and proves properties of the model:

- `logparse.dfy` (module `LogParse`) recognises a log line
  `[date] [hour] <user> message`. The source does this with a regular
  expression; here that one expression is a hand-written matcher. The matcher
  is proved equivalent to a declarative statement of the pattern, and the
  match it returns is proved to be the leftmost one.
- `msgprocessor.dfy` (module `MsgProcessor`) turns a parsed line into a user
  name and a list of words.
  - The user name is lower-cased and cut at `[`, `(` or `{`.
  - Link fields are dropped.
  - Every other field keeps only its alphanumeric characters and
    `' " - _ ( )`, lower-cased.
- `trainer.dfy` (module `MarkovTrainer`) models two parts of training:
  - the producer filter, which forwards only messages that have a user and at
    least one word;
  - the aggregator loop, which gives every user a model and issues, for each
    message, the `insert(cur, prev)` calls along its words.
- `markov.dfy` (module `Markov`) models the word graph of `Markov` as a class
  with the same three fields.
  - Word interning is modelled, with its invariants.
  - `insert_word` is modelled as a recursive method, and `insert_sentence`
    with its two loops.
  - `random_chain` is modelled as a loop. It is proved against a recursive
    walk function.
- `impersonate.dfy` (module `Impersonate`) models the `~impersonate` command
  of `main.rs`:
  - the dispatch on the first token;
  - the parsing of the arguments;
  - the lookup of the user;
  - the retry loop of up to 20 attempts for a chain of at least 4 words.
- `text.dfy` (module `Text`) holds the string helpers of Rust's standard
  library that the code relies on: ASCII whitespace and lower-casing,
  `split_whitespace` and `join`.
- `wrappers.dfy` (module `Wrappers`) holds `Option` and `Result`.

Randomness is a parameter. The model's `random_chain` takes a sequence of
choices: choice `c` at a node with `n` entries picks entry `c % n`. A walk
that uses up its choices before it stops fails with `ChoicesExhausted`.

### Quirks of the code that the model keeps

- `src/main.rs:50` calls `markov.random_chain(hook)`, but `random_chain` in
  `src/markov.rs:88` takes no hook word: it always starts at the
  sentence-begin node. `Markov` defines no method that takes a hook.
- `insert_word` (`src/markov.rs:63-70`) pushes the whole rest of the sentence
  as one entry, then recurses on that rest. `insert_sentence`
  (`src/markov.rs:83-85`) calls it `n` times for a sentence of `n` words, on
  the index path BEGIN, w1, ..., wn, END: the calls start at BEGIN and at
  w1, ..., w(n-1). So in a sentence without repeats the k-th word
  (k = 1..n) receives `min(n, k + 1)` copies of its entry, and BEGIN one
  (`Markov.SuffixesDuplicate`, whose position `j` counts along the index
  path, with BEGIN at 0).
- The aggregator (`src/markovtrainer.rs:54-64`) uses the empty string both for
  "no previous word" and for "end of message". The word processor
  (`src/msgprocessor.rs:23-29`) turns a field with no kept character into the
  empty word instead of dropping it (`MsgProcessor.UnkeptFieldGivesEmptyWord`).
  An empty word and the end of a message then issue the same calls
  (`MarkovTrainer.EmptyWordLooksLikeEnd`).
- `CommandImpersonate::from` (`src/main.rs:22-28`) reads only the first two
  arguments: a command with more arguments is accepted, and the rest are
  ignored (`Impersonate.FromArgsIgnoresExtra`).

## Model

| member | source | states |
|---|---|---|
| LogParse.GroupAt | src/logparse.rs:15-17 | the result is `j` only when the opener at `i`, a non-empty run free of the closing character and that closing character at `j` form a group; it is None exactly when no group starts at `i` |
| LogParse.MessageStart | src/logparse.rs:18 | the message begins after the greedy whitespace run, and no newline follows it |
| LogParse.Locate | src/logparse.rs:14-19 | the pieces found satisfy the declarative pattern, and the message begins at a non-whitespace character or at the end |
| LogParse.MatchAtSound | src/logparse.rs:14-28 | a match at `s` means the pattern starts there, and the captures are the text between `<` and `>` and the rest of the line after the whitespace |
| LogParse.MatchAtComplete | src/logparse.rs:14-19 | wherever the pattern starts, the matcher succeeds |
| LogParse.MatchAtIffPattern | src/logparse.rs:14-19 | the matcher succeeds at `s` if and only if the pattern starts at `s` |
| LogParse.SearchFromLeftmost | src/logparse.rs:24 | the search fails if and only if no start index matches; otherwise it returns the match at the first index that matches |
| LogParse.FromKonversationSpec | src/logparse.rs:11-32 | `from_konversation` gives a message if and only if the pattern occurs in the line; the result holds the captures of the leftmost occurrence |
| LogParse.FromKonversationResult | src/logparse.rs:13-28 | the user is non-empty and has no `>`; the message is a tail of the line with no newline, and it is empty or starts with a non-whitespace character |
| MsgProcessor.TakeUntilCut | src/msgprocessor.rs:15-17 | the result is a prefix with no `[`, `(` or `{`, and it stops only at one of those or at the end |
| MsgProcessor.NormalizeUserSpec | src/msgprocessor.rs:12-17 | the user is a prefix of the lower-cased name with no cut or upper-case character; it is cut at the first cut character; it is empty iff the name is empty or starts with a cut character |
| MsgProcessor.Keep | src/msgprocessor.rs:24-26 | keeping characters never lengthens a field, and only kept characters remain |
| MsgProcessor.KeepMembers | src/msgprocessor.rs:24-26 | a character is in the kept field if and only if it is in the field and is a kept character |
| MsgProcessor.KeepIdempotent | src/msgprocessor.rs:24-26 | filtering an already filtered field changes nothing |
| MsgProcessor.KeepAppend | src/msgprocessor.rs:24-26 | the filter works character by character: it distributes over concatenation |
| MsgProcessor.CleanWordSpec | src/msgprocessor.rs:23-28 | a word has the length of the field's kept characters, contains no upper-case letter, and holds only kept characters |
| MsgProcessor.HasUrlMarkerSpec | src/msgprocessor.rs:22 | the link test holds if and only if `://` occurs at some position of the field |
| MsgProcessor.UrlFreeMembers | src/msgprocessor.rs:22 | the surviving fields are exactly the fields without `://` |
| MsgProcessor.UrlFreeAppend | src/msgprocessor.rs:21-22 | dropping links keeps the order of fields: it distributes over concatenation |
| MsgProcessor.CleanWords | src/msgprocessor.rs:23-29 | there is one word per surviving field, at the same position |
| MsgProcessor.FromLogMessage | src/msgprocessor.rs:10-31 | the user is a prefix of the lower-cased name with no cut or upper-case character, cut at the first cut character; there is one word per field that is not a link, at that field's position, and it is the field's kept characters in their original order, lower-cased, so it is as long as those characters; every word is lower-case and made of kept characters only |
| MsgProcessor.CleanWordsSpec | src/msgprocessor.rs:23-29 | each word is as long as its field's kept characters, and every word is lower-case and made of kept characters only |
| MsgProcessor.SplitConcat | src/msgprocessor.rs:21 | splitting on whitespace distributes over a whitespace character |
| MsgProcessor.ProcessWordsConcat | src/msgprocessor.rs:19-29 | the words of two texts joined by whitespace are the words of each text, in order |
| MsgProcessor.UnkeptFieldWords | src/msgprocessor.rs:19-29 | a lone field that is not a link and has no kept character gives exactly the one word `""` |
| MsgProcessor.UnkeptFieldGivesEmptyWord | src/msgprocessor.rs:19-29 | for any text before and after, a field that is not a link and has no kept character becomes an empty word at its position; it is not dropped |
| MsgProcessor.KeepNone | src/msgprocessor.rs:24-26 | a field without kept characters keeps nothing |
| MarkovTrainer.ProduceLineSpec | src/markovtrainer.rs:29-34 | a forwarded message comes from a line holding the log pattern; its user is non-empty, lower-case and free of cut characters; it has at least one word, and every word is lower-case and holds only kept characters |
| MarkovTrainer.InsertCalls | src/markovtrainer.rs:48-64 | a message without words issues no call; otherwise it issues one call per word plus one more |
| MarkovTrainer.InsertCallsChain | src/markovtrainer.rs:52-64 | the current words are the words then `""`, the previous words are `""` then the words, and each call's current word is the next call's previous word |
| MarkovTrainer.EmptyWordLooksLikeEnd | src/markovtrainer.rs:52-64 | the messages `["a"]` and `["a", ""]` both issue `insert("", "a")`, so an empty word cannot be told from the end of a message |
| MarkovTrainer.CallsForOthers | src/markovtrainer.rs:45-65 | messages of other users issue no call on a user's model |
| MarkovTrainer.CallsForAppend | src/markovtrainer.rs:45-65 | a user's calls for two batches of messages are the calls for each batch, in order |
| MarkovTrainer.CallsForSwap | src/markovtrainer.rs:45-65 | swapping two adjacent messages of different users changes no user's calls, so only each user's own order matters |
| MarkovTrainer.ApplyMessage | src/markovtrainer.rs:46-64 | one round of the loop appends the message's calls to its user's model and changes nothing else |
| MarkovTrainer.Aggregate | src/markovtrainer.rs:43-67 | the registry has exactly the users of the received messages, and each user's model received exactly that user's calls, in order |
| Markov.Markov.constructor | src/markov.rs:29-35 | the new model has no words and no nodes, its next index is WORD_USER_BEGIN, and its invariant holds |
| Markov.Markov.GetOrInsertWordIndex | src/markov.rs:37-49 | an interned word keeps its index and nothing changes; a new word gets the next index, and the counter moves on by one; the interning invariant is kept |
| Markov.InterningDense | src/markov.rs:37-49 | the indices in use are exactly WORD_USER_BEGIN up to the counter, one per word |
| Markov.Markov.GetWordIndex | src/markov.rs:51-53 | the index is found if and only if the word is interned; in a valid model it is never a sentinel and is below the counter |
| Markov.Markov.GetWordFromIndex | src/markov.rs:55-61 | a word is returned if and only if some word has that index; the word returned has that index, and under the interning invariant it is the only such word |
| Markov.Markov.InsertWord | src/markov.rs:63-70 | the nodes afterwards are the old nodes with the path inserted: every index of the path has a node, and each node gains the suffixes that follow its occurrences |
| Markov.InsertedEntry | src/markov.rs:63-70 | `insert_word` keeps every old node and adds nodes for the word and its successors; if the word does not recur in its successors, it gains exactly one entry, the successors |
| Markov.InsertedSuccs | src/markov.rs:63-70 | after inserting a path, a node's entries are its old entries followed by the suffixes that the path pushes onto it |
| Markov.InsertedKeepsGraph | src/markov.rs:63-86 | inserting a sentence path keeps the graph well formed: only sentinel and word nodes, no entry on the end node, every entry non-empty, ending with END and pointing at existing nodes |
| Markov.NewWords | src/markov.rs:39-46 | the new words are exactly the sentence's words not yet interned, each once |
| Markov.NewWordsFirstOccurrence | src/markov.rs:39-46 | for every sentence, the new words are listed in order of first occurrence: of two new words, the earlier one occurs in the sentence before the first occurrence of the later one |
| Markov.NewWordsExample | src/markov.rs:39-46 | an example: in the sentence x y z x with y already known, the new words are x then z, so the repeated x is numbered once and the known y not at all |
| Markov.Markov.InternWords | src/markov.rs:73-80 | the words of the sentence are interned, old indices are kept, and the indices returned are those of the words; the `k`-th new word, in order of first occurrence, gets the old counter plus `k`, and the counter moves past the new words |
| Markov.Markov.InsertSentence | src/markov.rs:72-86 | the model stays valid; new words are numbered from the old counter in order of first occurrence, and old words keep their indices; the nodes are the old ones after inserting the suffixes of BEGIN, words, END that start at the first `n` positions; the begin node gains exactly the entry "words, END"; every word and the end sentinel have nodes |
| Markov.Markov.InsertSuffixes | src/markov.rs:83-85 | the loop of `insert_sentence` inserts, for each of the first `n` positions of the index path, the path from that position on; the word table and the counter do not change and the model stays valid |
| Markov.SentenceNodes | src/markov.rs:72-86 | inserting a non-empty sentence adds exactly one entry to the begin node, the sentence followed by END, and gives nodes to END and to every word |
| Markov.SuffixesDuplicate | src/markov.rs:83-85 | on a path without repeats, after `n` calls of the loop the index at position `j` of the path (BEGIN at 0, the k-th word at k) has gained `min(n, j + 1)` copies of the rest of the path |
| Markov.GraphIsClosed | src/markov.rs:104-107 | in a well-formed graph every entry has a head, and that head has a node, so `self.nodes[&current_index]` cannot fail |
| Markov.WalkStops | src/markov.rs:99-102 | a walk that finishes stops at the end sentinel or at a node without entries |
| Markov.WalkVisitsWords | src/markov.rs:99-112 | a walk visits only interned words, apart from a final END; the words it yields are the visited indices without that END |
| Markov.Markov.RandomChain | src/markov.rs:88-115 | without a begin node the result is BeginNodeNotFound; otherwise the walk from the begin node fails iff the result is ChoicesExhausted, and when it finishes the result is the words of the walk's indices, in order; every word returned is interned under a non-sentinel index |
| Impersonate.FromArgs | src/main.rs:22-29 | parsing fails with the syntax error iff there are fewer than two arguments; otherwise the user is the first argument and the hook word the second |
| Impersonate.FromArgsIgnoresExtra | src/main.rs:22-29 | arguments after the second make no difference |
| Impersonate.Handle | src/main.rs:31-69 | the reply follows the source's outcomes:<br>• syntax error iff fewer than two arguments<br>• "user not found", carrying the name as typed, iff the lower-cased name has no model<br>• otherwise at most 20 attempts, and every attempt before the last gave a chain shorter than 4<br>• success means the last chain has at least 4 words, and the reply is that chain joined with spaces<br>• the attempt's error iff the last attempt failed<br>• "no long chain" iff 20 attempts were all too short |
| Impersonate.Dispatch | src/main.rs:95-100 | a message is handled iff its first whitespace token is exactly `~impersonate`; the arguments are the remaining tokens |
| Impersonate.DispatchTyped | src/main.rs:95-100 | typing the command and whitespace-free arguments separated by single spaces gives those arguments back |
| Impersonate.DispatchNeedsWholeToken | src/main.rs:97-100 | a first token that only starts with the command, such as `~impersonator`, is not handled |
| Text.SplitJoin | src/main.rs:66 | splitting the single-space join of non-empty, whitespace-free words on whitespace gives the words back |

## Left out

- I/O is not modelled: opening and reading the log files, the IRC client
  (`src/ircbot.rs` is not part of this model), `send_privmsg`, `send_error`
  and `print!`. `Impersonate.Handle` returns the reply or the error that
  would be sent.
- Threads and the channel of `markov_from_logs` are not modelled.
  `MarkovTrainer.Aggregate` takes the received messages as a sequence, in any
  order the threads produce. `MarkovTrainer.CallsForSwap` shows that only
  each user's own order matters.
- MarkovTrainer.Aggregate: `Markov::insert(cur, prev)`, which the aggregator
  calls, is not defined in `src/markov.rs`. A user's model is therefore the
  list of calls it received, not a word graph.
- Impersonate.Handle: `Markov::random_chain(hook)`, which the command calls,
  is not defined either; `random_chain` in `src/markov.rs` takes no hook. Each
  attempt's outcome is a caller-supplied function of the model, the
  lower-cased hook and the attempt number.
- Markov.Markov.RandomChain: `thread_rng().gen_range(0, len)` is replaced by
  caller-supplied choices, taken modulo the number of entries. A walk also
  fails with `ChoicesExhausted` when the choices run out, which the source
  cannot do; the choices bound the number of steps.
- Markov.Markov.GetOrInsertWordIndex: `WordIndex` is a `u32` in the source.
  The model uses unbounded naturals and does not model the overflow after
  2^32 - 2 distinct words.
- Markov.Markov.GetWordFromIndex: the source returns the first match in
  `FxHashMap` iteration order. The model picks any key with that index, which
  is the only such key under the interning invariant.
- Markov.Markov.InsertSentence: the effect on the nodes is stated through
  `InsertedSuffixes`. The begin-node entry, the new nodes and the duplication
  are proved about that function separately.
- Text.IsWhitespace and MsgProcessor.IsAsciiAlphanumeric: only ASCII is
  modelled. Rust's `char::is_whitespace`, regex `\s`, `char::is_alphanumeric`
  and `str::to_lowercase` also act on other Unicode characters.
- LogParse.FromKonversation: the general regular-expression engine is not
  modelled, only the one pattern the source compiles.
- Markov.Markov.RandomChain requires the model invariant `Valid()`, which
  `new` and `insert_sentence` establish and keep. `insert_word` is public in
  the source but is not kept to that invariant: `Markov.Markov.InsertWord`
  neither requires nor ensures it. So the panics of `random_chain` on a
  graph with a dangling or empty entry, which only direct calls of
  `insert_word` could build, are not modelled.
- `Markov::get_word_index` is never called in the source. It is modelled as
  the function `Markov.Markov.GetWordIndex`.
