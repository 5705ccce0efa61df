/**
 * Model of src/markov.rs: the per-user Markov word graph.
 *
 * Words are interned as indices; 0 and 1 stand for the beginning and the
 * end of a sentence.  Each node keeps a list of successor entries, and every
 * entry is the whole remainder of a sentence after that word, ending with
 * the end sentinel.  A random chain walks from the beginning node, each step
 * moving to the head of one entry of the current node.
 *
 * The random number generator is replaced by a sequence of choices supplied
 * by the caller: choice `c` at a node with `n` entries picks entry `c % n`.
 * A walk that uses up its choices fails with `ChoicesExhausted`.
 */
module Markov {
  import opened Wrappers

  /** `u32` in the source; the model does not bound it. */
  type WordIndex = nat

  const WORD_SENTENCE_BEGIN: WordIndex := 0
  const WORD_SENTENCE_END: WordIndex := 1
  const WORD_USER_BEGIN: WordIndex := 2

  /** A graph node: its successor entries, each a remainder of a sentence. */
  datatype Node = Node(succs: seq<seq<WordIndex>>)

  datatype ChainError = BeginNodeNotFound | ChoicesExhausted

  // ---------------------------------------------------------------------
  // Invariants of the interning table and of the graph.

  /**
   * Interning hands out the indices WORD_USER_BEGIN, WORD_USER_BEGIN + 1, ...
   * to distinct words, and `latest` is the next one to hand out.
   */
  ghost predicate Interning(wordMatches: map<string, WordIndex>, latest: WordIndex) {
    && WORD_USER_BEGIN <= latest
    && |wordMatches| == latest - WORD_USER_BEGIN
    && (forall w :: w in wordMatches ==> WORD_USER_BEGIN <= wordMatches[w] < latest)
    && (forall w, v :: w in wordMatches && v in wordMatches && w != v ==> wordMatches[w] != wordMatches[v])
  }

  /**
   * A stored successor entry: non-empty, ending with the end sentinel, every
   * other index an interned word, and every index with a node of its own.
   */
  ghost predicate StoredEntry(v: seq<WordIndex>, nodes: map<WordIndex, Node>, wordMatches: map<string, WordIndex>) {
    && |v| > 0 && v[|v| - 1] == WORD_SENTENCE_END
    && (forall j :: 0 <= j < |v| - 1 ==> v[j] in wordMatches.Values)
    && (forall j :: 0 <= j < |v| ==> v[j] in nodes)
  }

  /**
   * The graph built by `insert_sentence`: nodes only for the sentinels and
   * interned words, no entry for the end node, and only well-formed entries.
   */
  ghost predicate Graph(nodes: map<WordIndex, Node>, wordMatches: map<string, WordIndex>) {
    && (forall k :: k in nodes ==> k == WORD_SENTENCE_BEGIN || k == WORD_SENTENCE_END || k in wordMatches.Values)
    && (WORD_SENTENCE_END in nodes ==> nodes[WORD_SENTENCE_END].succs == [])
    && (forall k, v :: k in nodes && v in nodes[k].succs ==> StoredEntry(v, nodes, wordMatches))
  }

  /** A graph stays well formed when the table only gains words. */
  lemma GraphGrowsWithTable(nodes: map<WordIndex, Node>, wordMatches: map<string, WordIndex>, wordMatches': map<string, WordIndex>)
    requires Graph(nodes, wordMatches) && wordMatches.Values <= wordMatches'.Values
    ensures Graph(nodes, wordMatches')
  {
    forall k, v | k in nodes && v in nodes[k].succs ensures StoredEntry(v, nodes, wordMatches') {
      assert StoredEntry(v, nodes, wordMatches);
    }
  }

  /** What the walk needs: every entry has a head, and the head has a node. */
  ghost predicate Closed(nodes: map<WordIndex, Node>) {
    forall k, v :: k in nodes && v in nodes[k].succs ==> |v| > 0 && v[0] in nodes
  }

  lemma GraphIsClosed(nodes: map<WordIndex, Node>, wordMatches: map<string, WordIndex>)
    requires Graph(nodes, wordMatches)
    ensures Closed(nodes)
  {
    forall k, v | k in nodes && v in nodes[k].succs ensures |v| > 0 && v[0] in nodes {
      assert StoredEntry(v, nodes, wordMatches);
    }
  }

  /** The indices handed out so far: WORD_USER_BEGIN up to, not including, `latest`. */
  ghost function HandedOut(latest: WordIndex): set<WordIndex>
    decreases latest
  {
    if latest <= WORD_USER_BEGIN then {} else HandedOut(latest - 1) + {latest - 1}
  }

  lemma {:induction false} HandedOutSpec(latest: WordIndex)
    requires WORD_USER_BEGIN <= latest
    ensures |HandedOut(latest)| == latest - WORD_USER_BEGIN
    ensures forall x :: x in HandedOut(latest) <==> WORD_USER_BEGIN <= x < latest
    decreases latest
  {
    if latest > WORD_USER_BEGIN {
      HandedOutSpec(latest - 1);
    }
  }

  /** An injective table has as many distinct indices as words. */
  lemma {:induction false} InjectiveValuesCard(m: map<string, WordIndex>)
    requires forall w, v :: w in m && v in m && w != v ==> m[w] != m[v]
    ensures |m.Values| == |m|
    decreases |m|
  {
    if m != map[] {
      var k :| k in m;
      var rest := m - {k};
      InjectiveValuesCard(rest);
      assert m.Values == rest.Values + {m[k]} by {
        forall x | x in m.Values ensures x in rest.Values + {m[k]} {
          var w :| w in m && m[w] == x;
          if w != k {
            assert rest[w] == x;
          }
        }
      }
      assert m[k] !in rest.Values;
    }
  }

  /**
   * Interning is dense: the indices in use are exactly WORD_USER_BEGIN,
   * WORD_USER_BEGIN + 1, ..., latest - 1, one per word.
   */
  lemma InterningDense(wordMatches: map<string, WordIndex>, latest: WordIndex)
    requires Interning(wordMatches, latest)
    ensures wordMatches.Values == HandedOut(latest)
  {
    InjectiveValuesCard(wordMatches);
    HandedOutSpec(latest);
    var a, b := wordMatches.Values, HandedOut(latest);
    assert a <= b;
    assert b == a + (b - a);
    assert |b - a| == 0;
    assert b - a == {};
  }

  // ---------------------------------------------------------------------
  // What `insert_word` and `insert_sentence` do to the node map.

  /** The successor entries of `k`, none when `k` has no node. */
  function SuccsOf(nodes: map<WordIndex, Node>, k: WordIndex): seq<seq<WordIndex>> {
    if k in nodes then nodes[k].succs else []
  }

  /**
   * The entries pushed onto node `k` when path `p` is inserted: for every
   * position `j` of `p` holding `k` that is not the last, the rest of the path
   * after `j`, in order of position.
   */
  function Pushes(p: seq<WordIndex>, k: WordIndex): seq<seq<WordIndex>>
  {
    if |p| <= 1 then [] else (if p[0] == k then [p[1..]] else []) + Pushes(p[1..], k)
  }

  /**
   * The node map after inserting path `p` (a word followed by its
   * successors): every index of `p` has a node, and each node's entries are
   * its old ones followed by what `p` pushes onto it.
   */
  function Inserted(nodes: map<WordIndex, Node>, p: seq<WordIndex>): map<WordIndex, Node>
  {
    map k | k in nodes.Keys + (set x | x in p) :: Node(SuccsOf(nodes, k) + Pushes(p, k))
  }

  /**
   * The node map after the loop of `insert_sentence` has inserted the first
   * `n` suffixes of `ws`.
   */
  function InsertedSuffixes(nodes: map<WordIndex, Node>, ws: seq<WordIndex>, n: nat): map<WordIndex, Node>
    requires n <= |ws|
  {
    if n == 0 then nodes else Inserted(InsertedSuffixes(nodes, ws, n - 1), ws[n - 1..])
  }

  /** The indices of the words of `sentence`. */
  function Indices(wordMatches: map<string, WordIndex>, sentence: seq<string>): (r: seq<WordIndex>)
    requires forall i :: 0 <= i < |sentence| ==> sentence[i] in wordMatches
    ensures |r| == |sentence|
  {
    seq(|sentence|, i requires 0 <= i < |sentence| => wordMatches[sentence[i]])
  }

  /**
   * The words of `sentence` that are not in `known`, each once, in the order
   * of their first occurrence: the order in which interning numbers them.
   */
  function NewWords(known: set<string>, sentence: seq<string>): (r: seq<string>)
    ensures forall w :: w in r <==> w in sentence && w !in known
    ensures forall a, b :: 0 <= a < b < |r| ==> r[a] != r[b]
  {
    if sentence == [] then []
    else
      var front, last := sentence[..|sentence| - 1], sentence[|sentence| - 1];
      assert sentence == front + [last];
      if last in known || last in front then NewWords(known, front) else NewWords(known, front) + [last]
  }

  /** Inserting a lone word adds its node and nothing else. */
  lemma InsertedWord(nodes: map<WordIndex, Node>, word: WordIndex)
    ensures Inserted(nodes, [word]) == nodes[word := Node(SuccsOf(nodes, word))]
  {
    var lhs, rhs := Inserted(nodes, [word]), nodes[word := Node(SuccsOf(nodes, word))];
    assert lhs.Keys == rhs.Keys;
    forall k | k in lhs ensures lhs[k] == rhs[k] {
      assert Pushes([word], k) == [];
    }
  }

  /** One step of `insert_word`: push `succs` on `word`, then insert `succs` itself. */
  lemma InsertedStep(nodes: map<WordIndex, Node>, word: WordIndex, succs: seq<WordIndex>)
    requires succs != []
    ensures Inserted(nodes[word := Node(SuccsOf(nodes, word) + [succs])], succs) == Inserted(nodes, [word] + succs)
  {
    var n1 := nodes[word := Node(SuccsOf(nodes, word) + [succs])];
    var p := [word] + succs;
    assert n1.Keys + (set x | x in succs) == nodes.Keys + (set x | x in p);
    forall k | k in n1.Keys + (set x | x in succs)
      ensures SuccsOf(n1, k) + Pushes(succs, k) == SuccsOf(nodes, k) + Pushes(p, k)
    {
      InsertedStepAt(nodes, word, succs, k);
    }
  }

  /** `InsertedStep` at one index `k`. */
  lemma InsertedStepAt(nodes: map<WordIndex, Node>, word: WordIndex, succs: seq<WordIndex>, k: WordIndex)
    requires succs != []
    ensures SuccsOf(nodes[word := Node(SuccsOf(nodes, word) + [succs])], k) + Pushes(succs, k)
         == SuccsOf(nodes, k) + Pushes([word] + succs, k)
  {
    var p := [word] + succs;
    assert p[1..] == succs;
    var later := Pushes(succs, k);
    assert Pushes(p, k) == (if word == k then [succs] else []) + later;
    if word == k {
      assert (SuccsOf(nodes, k) + [succs]) + later == SuccsOf(nodes, k) + ([succs] + later);
    } else {
      assert [] + later == later;
    }
  }

  /**
   * `insert_word(word, succs)` leaves a node for `word` and for every index
   * of `succs`, keeps every old node, and, when `word` does not recur before
   * the last position of `succs`, appends exactly `succs` to `word`'s entries.
   */
  lemma InsertedEntry(nodes: map<WordIndex, Node>, word: WordIndex, succs: seq<WordIndex>)
    ensures var after := Inserted(nodes, [word] + succs);
      && nodes.Keys <= after.Keys
      && word in after && (forall x :: x in succs ==> x in after)
      && (succs != [] && (forall j :: 0 <= j < |succs| - 1 ==> succs[j] != word) ==>
            after[word].succs == SuccsOf(nodes, word) + [succs])
  {
    var p := [word] + succs;
    assert p[0] == word;
    forall x | x in succs ensures x in Inserted(nodes, p) {
      var j :| 0 <= j < |succs| && succs[j] == x;
      assert p[j + 1] == x;
    }
    if succs != [] && (forall j :: 0 <= j < |succs| - 1 ==> succs[j] != word) {
      assert p[1..] == succs;
      PushesAbsent(succs, word);
      assert Pushes(p, word) == [succs];
    }
  }

  /** Pushes only suffixes of the path: proper, non-empty ones. */
  lemma {:induction false} PushesAreSuffixes(p: seq<WordIndex>, k: WordIndex)
    ensures forall v :: v in Pushes(p, k) ==> 0 < |v| < |p| && v == p[|p| - |v|..]
  {
    if |p| > 1 {
      PushesAreSuffixes(p[1..], k);
      forall v | v in Pushes(p[1..], k) ensures v == p[|p| - |v|..] {
        assert p[1..][|p| - 1 - |v|..] == p[|p| - |v|..];
      }
    }
  }

  /** An index that occurs only last in a path receives nothing. */
  lemma {:induction false} PushesAbsent(p: seq<WordIndex>, k: WordIndex)
    requires forall j :: 0 <= j < |p| - 1 ==> p[j] != k
    ensures Pushes(p, k) == []
  {
    if |p| > 1 {
      PushesAbsent(p[1..], k);
    }
  }

  /**
   * A path as `insert_sentence` inserts it: it starts with the begin
   * sentinel or an interned word, continues with interned words and ends
   * with the end sentinel.
   */
  ghost predicate SentencePath(p: seq<WordIndex>, wordMatches: map<string, WordIndex>) {
    && |p| >= 2
    && p[|p| - 1] == WORD_SENTENCE_END
    && (p[0] == WORD_SENTENCE_BEGIN || p[0] in wordMatches.Values)
    && (forall j :: 1 <= j < |p| - 1 ==> p[j] in wordMatches.Values)
  }

  /** Interned indices are never sentinels. */
  ghost predicate UserIndices(wordMatches: map<string, WordIndex>) {
    forall x :: x in wordMatches.Values ==> x >= WORD_USER_BEGIN
  }

  /** Every entry `insert_word` stores along a sentence path is well formed. */
  lemma PushedEntriesOk(nodes: map<WordIndex, Node>, wordMatches: map<string, WordIndex>, p: seq<WordIndex>, k: WordIndex)
    requires SentencePath(p, wordMatches)
    ensures forall v :: v in Pushes(p, k) ==> StoredEntry(v, Inserted(nodes, p), wordMatches)
  {
    PushesAreSuffixes(p, k);
    var after := Inserted(nodes, p);
    forall v | v in Pushes(p, k) ensures StoredEntry(v, after, wordMatches) {
      var off := |p| - |v|;
      forall j | 0 <= j < |v| ensures v[j] in after && (j < |v| - 1 ==> v[j] in wordMatches.Values) {
        assert v[j] == p[off + j];
      }
    }
  }

  /** Inserting a sentence path keeps the graph well formed. */
  lemma InsertedKeepsGraph(nodes: map<WordIndex, Node>, wordMatches: map<string, WordIndex>, p: seq<WordIndex>)
    requires Graph(nodes, wordMatches) && UserIndices(wordMatches)
    requires SentencePath(p, wordMatches)
    ensures Graph(Inserted(nodes, p), wordMatches)
  {
    var after := Inserted(nodes, p);
    forall k | k in after
      ensures k == WORD_SENTENCE_BEGIN || k == WORD_SENTENCE_END || k in wordMatches.Values
    {
      if k !in nodes {
        var j :| 0 <= j < |p| && p[j] == k;
      }
    }
    PushesAbsent(p, WORD_SENTENCE_END);
    forall k, v | k in after && v in after[k].succs ensures StoredEntry(v, after, wordMatches) {
      if v in SuccsOf(nodes, k) {
        assert StoredEntry(v, nodes, wordMatches);
      } else {
        PushedEntriesOk(nodes, wordMatches, p, k);
      }
    }
  }

  /** The suffixes of a sentence's index path are sentence paths. */
  lemma SuffixIsSentencePath(ws: seq<WordIndex>, wordMatches: map<string, WordIndex>, i: nat)
    requires SentencePath(ws, wordMatches)
    requires i < |ws| - 1
    requires ws[0] == WORD_SENTENCE_BEGIN
    ensures SentencePath(ws[i..], wordMatches)
  {
  }

  /**
   * Inserting the suffixes of a sentence's index path pushes exactly one
   * entry onto the begin node: the whole sentence followed by the end sentinel.
   */
  lemma {:induction false} SentenceBeginEntry(nodes: map<WordIndex, Node>, ws: seq<WordIndex>, n: nat)
    requires 1 <= n < |ws|
    requires ws[0] == WORD_SENTENCE_BEGIN
    requires forall j :: 1 <= j < |ws| ==> ws[j] != WORD_SENTENCE_BEGIN
    ensures WORD_SENTENCE_BEGIN in InsertedSuffixes(nodes, ws, n)
    ensures SuccsOf(InsertedSuffixes(nodes, ws, n), WORD_SENTENCE_BEGIN) == SuccsOf(nodes, WORD_SENTENCE_BEGIN) + [ws[1..]]
  {
    if n == 1 {
      assert ws[0..] == ws;
      PushesAbsent(ws[1..], WORD_SENTENCE_BEGIN);
      assert Pushes(ws, WORD_SENTENCE_BEGIN) == [ws[1..]] + Pushes(ws[1..], WORD_SENTENCE_BEGIN);
    } else {
      SentenceBeginEntry(nodes, ws, n - 1);
      PushesAbsent(ws[n - 1..], WORD_SENTENCE_BEGIN);
    }
  }

  /** After the first suffix is inserted, every index of the path and every old node has a node. */
  lemma {:induction false} SuffixesKeys(nodes: map<WordIndex, Node>, ws: seq<WordIndex>, n: nat)
    requires n <= |ws|
    ensures nodes.Keys <= InsertedSuffixes(nodes, ws, n).Keys
    ensures n >= 1 ==> forall j :: 0 <= j < |ws| ==> ws[j] in InsertedSuffixes(nodes, ws, n)
  {
    if n >= 1 {
      SuffixesKeys(nodes, ws, n - 1);
      if n == 1 {
        assert ws[0..] == ws;
      }
    }
  }

  /** One call of the loop of `insert_sentence` inserts one more suffix and keeps the graph well formed. */
  lemma SuffixStep(start: map<WordIndex, Node>, prev: map<WordIndex, Node>, after: map<WordIndex, Node>,
                   wordMatches: map<string, WordIndex>, ws: seq<WordIndex>, i: nat)
    requires i < |ws| - 1 && ws[0] == WORD_SENTENCE_BEGIN
    requires SentencePath(ws, wordMatches) && UserIndices(wordMatches) && Graph(prev, wordMatches)
    requires prev == InsertedSuffixes(start, ws, i)
    requires after == Inserted(prev, [ws[i]] + ws[i + 1..])
    ensures after == InsertedSuffixes(start, ws, i + 1) && Graph(after, wordMatches)
  {
    SuffixIsSentencePath(ws, wordMatches, i);
    InsertedKeepsGraph(prev, wordMatches, ws[i..]);
    assert [ws[i]] + ws[i + 1..] == ws[i..];
  }

  /** A lemma of its own keeps this step out of the larger proof context of `SentenceNodes`. */
  lemma DropBegin(indices: seq<WordIndex>)
    ensures ([WORD_SENTENCE_BEGIN] + indices + [WORD_SENTENCE_END])[1..] == indices + [WORD_SENTENCE_END]
  {
  }

  /** `u` occurs in `s` before the first occurrence of `v`, if `v` occurs at all. */
  ghost predicate OccursBefore(s: seq<string>, u: string, v: string) {
    exists i :: 0 <= i < |s| && s[i] == u && v !in s[..i]
  }

  /**
   * The new words are listed in the order of their first occurrences: of two
   * new words, the earlier one first occurs in the sentence before the later
   * one does.  Together with the ensures of `NewWords` (exactly the words
   * not yet interned, each once) this fixes the list for every sentence.
   */
  lemma {:induction false} NewWordsFirstOccurrence(known: set<string>, sentence: seq<string>)
    ensures forall a, b :: 0 <= a < b < |NewWords(known, sentence)| ==>
      OccursBefore(sentence, NewWords(known, sentence)[a], NewWords(known, sentence)[b])
    decreases |sentence|
  {
    if sentence != [] {
      var front, last := sentence[..|sentence| - 1], sentence[|sentence| - 1];
      assert sentence == front + [last];
      NewWordsFirstOccurrence(known, front);
      var p, r := NewWords(known, front), NewWords(known, sentence);
      assert forall a, b :: 0 <= a < b < |p| ==> OccursBefore(front, p[a], p[b]);
      assert r[..|p|] == p;
      forall a, b | 0 <= a < b < |r| ensures OccursBefore(sentence, r[a], r[b]) {
        assert r[a] == p[a];
        if b < |p| {
          assert r[b] == p[b];
          var i :| 0 <= i < |front| && front[i] == p[a] && p[b] !in front[..i];
          assert sentence[i] == front[i] && sentence[..i] == front[..i];
        } else {
          assert r == p + [last] && r[b] == last && last !in front;
          assert p[a] in p;
          var i :| 0 <= i < |front| && front[i] == p[a];
          assert sentence[i] == front[i] && sentence[..i] == front[..i];
        }
      }
    }
  }

  /** An example of the numbering: a repeated word is numbered once, at its first occurrence, and a known word not at all. */
  lemma NewWordsExample()
    ensures NewWords({"y"}, ["x", "y", "z", "x"]) == ["x", "z"]
  {
    var k: set<string> := {"y"};
    var x, y, z := "x", "y", "z";
    assert x != y && x != z && y != z by {
      assert x[0] != y[0] && x[0] != z[0] && y[0] != z[0];
    }
    var s0, s1, s2, s3: seq<string> := [], [x], [x, y], [x, y, z];
    assert s0 + [x] == s1 && s1 + [y] == s2 && s2 + [z] == s3 && s3 + [x] == [x, y, z, x];
    assert x !in k && x !in s0 && y in k && z !in k && z !in s2 && x in s3;
    assert [] + [x] == [x] && [x] + [z] == [x, z];
    assert NewWords(k, s0) == [];
    NewWordsSnoc(k, s0, x);
    assert NewWords(k, s1) == [x];
    NewWordsSnoc(k, s1, y);
    assert NewWords(k, s2) == [x];
    NewWordsSnoc(k, s2, z);
    assert NewWords(k, s3) == [x, z];
    NewWordsSnoc(k, s3, x);
  }

  /** The new words of a sentence one word longer. */
  lemma NewWordsSnoc(known: set<string>, front: seq<string>, last: string)
    ensures NewWords(known, front + [last])
         == if last in known || last in front then NewWords(known, front) else NewWords(known, front) + [last]
  {
    assert (front + [last])[..|front|] == front;
  }

  /** The new words after one more word of the sentence: one more exactly when it is not yet interned. */
  lemma NewWordsStep(start: map<string, WordIndex>, prev: map<string, WordIndex>, sentence: seq<string>, i: nat)
    requires i < |sentence|
    requires forall w :: w in prev <==> w in start || w in sentence[..i]
    ensures NewWords(start.Keys, sentence[..i + 1])
         == if sentence[i] in prev then NewWords(start.Keys, sentence[..i])
            else NewWords(start.Keys, sentence[..i]) + [sentence[i]]
  {
    assert sentence[..i + 1][..i] == sentence[..i];
  }

  /**
   * The state after interning the first `i` words of `sentence`, starting
   * from table `start` with counter `base`: exactly the old words and those
   * `i` words are interned, old words keep their indices, `indices` holds the
   * indices of the `i` words, and the `k`-th new word has index `base + k`,
   * with the counter just past the new words.
   */
  ghost predicate InternedPrefix(start: map<string, WordIndex>, base: WordIndex,
                                 wm: map<string, WordIndex>, latest: WordIndex,
                                 sentence: seq<string>, i: nat, indices: seq<WordIndex>)
  {
    && InternedWords(start, wm, sentence, i, indices)
    && Numbered(wm, latest, base, NewWords(start.Keys, sentence[..i]))
  }

  /**
   * Exactly the old words and the first `i` words of `sentence` are interned,
   * old words keep their indices, and `indices` holds those of the `i` words.
   */
  ghost predicate InternedWords(start: map<string, WordIndex>, wm: map<string, WordIndex>,
                                sentence: seq<string>, i: nat, indices: seq<WordIndex>)
  {
    && i <= |sentence| && |indices| == i
    && (forall w :: w in wm <==> w in start || w in sentence[..i])
    && (forall w :: w in start ==> w in wm && wm[w] == start[w])
    && (forall j :: 0 <= j < i ==> sentence[j] in wm && indices[j] == wm[sentence[j]])
  }

  lemma InternedWordsNext(start: map<string, WordIndex>, prev: map<string, WordIndex>, cur: map<string, WordIndex>,
                          sentence: seq<string>, i: nat, indices: seq<WordIndex>, index: WordIndex)
    requires InternedWords(start, prev, sentence, i, indices) && i < |sentence|
    requires sentence[i] in prev ==> index == prev[sentence[i]] && cur == prev
    requires sentence[i] !in prev ==> cur == prev[sentence[i] := index]
    ensures InternedWords(start, cur, sentence, i + 1, indices + [index])
  {
    assert sentence[..i + 1] == sentence[..i] + [sentence[i]];
  }

  /** The `k`-th of the words `added` has index `base + k`, and the counter is just past them. */
  ghost predicate Numbered(wm: map<string, WordIndex>, latest: WordIndex, base: WordIndex, added: seq<string>) {
    && latest == base + |added|
    && forall k :: 0 <= k < |added| ==> added[k] in wm && wm[added[k]] == base + k
  }

  /** Interning a word that is not yet in the table numbers it next. */
  lemma NumberedNext(wm: map<string, WordIndex>, latest: WordIndex, base: WordIndex, added: seq<string>, w: string)
    requires Numbered(wm, latest, base, added) && w !in wm
    ensures Numbered(wm[w := latest], latest + 1, base, added + [w])
  {
  }

  lemma InternedStart(start: map<string, WordIndex>, base: WordIndex, sentence: seq<string>)
    ensures InternedPrefix(start, base, start, base, sentence, 0, [])
  {
    assert sentence[..0] == [];
  }

  /** Interning one more word of the sentence, as `get_or_insert_word_index` does. */
  lemma InternedNext(start: map<string, WordIndex>, base: WordIndex,
                     prev: map<string, WordIndex>, prevLatest: WordIndex,
                     cur: map<string, WordIndex>, curLatest: WordIndex,
                     sentence: seq<string>, i: nat, indices: seq<WordIndex>, index: WordIndex)
    requires InternedPrefix(start, base, prev, prevLatest, sentence, i, indices) && i < |sentence|
    requires sentence[i] in prev ==> index == prev[sentence[i]] && cur == prev && curLatest == prevLatest
    requires sentence[i] !in prev ==>
      index == prevLatest && cur == prev[sentence[i] := index] && curLatest == prevLatest + 1
    ensures InternedPrefix(start, base, cur, curLatest, sentence, i + 1, indices + [index])
  {
    InternedWordsNext(start, prev, cur, sentence, i, indices, index);
    NewWordsStep(start, prev, sentence, i);
    if sentence[i] !in prev {
      NumberedNext(prev, prevLatest, base, NewWords(start.Keys, sentence[..i]), sentence[i]);
    }
  }

  /** Once every word is interned, the state is the one the sentence asks for. */
  lemma InternedAll(start: map<string, WordIndex>, base: WordIndex, wm: map<string, WordIndex>, latest: WordIndex,
                    sentence: seq<string>, indices: seq<WordIndex>)
    requires InternedPrefix(start, base, wm, latest, sentence, |sentence|, indices)
    ensures forall w :: w in wm <==> w in start || w in sentence
    ensures forall w :: w in start ==> wm[w] == start[w]
    ensures forall i :: 0 <= i < |sentence| ==> sentence[i] in wm
    ensures indices == Indices(wm, sentence)
    ensures var added := NewWords(start.Keys, sentence);
      && latest == base + |added|
      && forall k :: 0 <= k < |added| ==> wm[added[k]] == base + k
    ensures sentence == [] ==> wm == start && latest == base
  {
    assert sentence[..|sentence|] == sentence;
  }

  /** The index path of an interned sentence is a sentence path. */
  lemma SentencePathOfIndices(wordMatches: map<string, WordIndex>, sentence: seq<string>)
    requires forall i :: 0 <= i < |sentence| ==> sentence[i] in wordMatches
    ensures var ws := [WORD_SENTENCE_BEGIN] + Indices(wordMatches, sentence) + [WORD_SENTENCE_END];
      SentencePath(ws, wordMatches) && ws[0] == WORD_SENTENCE_BEGIN
  {
    var ws := [WORD_SENTENCE_BEGIN] + Indices(wordMatches, sentence) + [WORD_SENTENCE_END];
    forall j | 1 <= j < |ws| - 1 ensures ws[j] in wordMatches.Values {
      assert ws[j] == wordMatches[sentence[j - 1]];
    }
  }

  /**
   * What inserting a non-empty sentence does to the nodes: the begin node
   * gains the one entry "sentence, END", and the end node and every word of
   * the sentence have nodes.
   */
  lemma SentenceNodes(nodes: map<WordIndex, Node>, wordMatches: map<string, WordIndex>, sentence: seq<string>)
    requires sentence != [] && UserIndices(wordMatches)
    requires forall i :: 0 <= i < |sentence| ==> sentence[i] in wordMatches
    ensures var after := InsertedSuffixes(nodes,
        [WORD_SENTENCE_BEGIN] + Indices(wordMatches, sentence) + [WORD_SENTENCE_END], |sentence|);
      && SuccsOf(after, WORD_SENTENCE_BEGIN)
           == SuccsOf(nodes, WORD_SENTENCE_BEGIN) + [Indices(wordMatches, sentence) + [WORD_SENTENCE_END]]
      && WORD_SENTENCE_END in after
      && forall w :: w in sentence ==> wordMatches[w] in after
  {
    var ids := Indices(wordMatches, sentence);
    var ws := [WORD_SENTENCE_BEGIN] + ids + [WORD_SENTENCE_END];
    assert forall j :: 0 <= j < |sentence| ==> ws[j + 1] == ids[j] == wordMatches[sentence[j]];
    forall j | 1 <= j < |ws| ensures ws[j] != WORD_SENTENCE_BEGIN {
      if j < |ws| - 1 {
        assert ws[j] in wordMatches.Values;
      }
    }
    SentenceBeginEntry(nodes, ws, |sentence|);
    DropBegin(ids);
    SuffixesKeys(nodes, ws, |sentence|);
    var after := InsertedSuffixes(nodes, ws, |sentence|);
    assert ws[|ws| - 1] in after;
    forall w | w in sentence ensures wordMatches[w] in after {
      var j :| 0 <= j < |sentence| && sentence[j] == w;
      assert ws[j + 1] in after;
    }
  }

  /** `m` copies of `v`. */
  function Repeat(v: seq<WordIndex>, m: nat): (r: seq<seq<WordIndex>>)
    ensures |r| == m && forall j :: 0 <= j < m ==> r[j] == v
  {
    if m == 0 then [] else Repeat(v, m - 1) + [v]
  }

  /** No index occurs twice in `ws`. */
  ghost predicate Distinct(ws: seq<WordIndex>) {
    forall a, b :: 0 <= a < b < |ws| ==> ws[a] != ws[b]
  }

  /** In a path without repeats, the one occurrence of `p[j]` pushes the rest after it. */
  lemma {:induction false} PushesDistinct(p: seq<WordIndex>, j: nat)
    requires Distinct(p) && j < |p| - 1
    ensures Pushes(p, p[j]) == [p[j + 1..]]
  {
    if j == 0 {
      PushesAbsent(p[1..], p[0]);
    } else {
      PushesDistinct(p[1..], j - 1);
      assert p[1..][j - 1] == p[j] && p[1..][j..] == p[j + 1..];
    }
  }

  /**
   * The entries of `k` after the first `n` calls of the loop of
   * `insert_sentence`, call by call, without the rest of the node map.
   */
  function SuccsAfter(nodes: map<WordIndex, Node>, ws: seq<WordIndex>, n: nat, k: WordIndex): seq<seq<WordIndex>>
    requires n <= |ws|
  {
    if n == 0 then SuccsOf(nodes, k) else SuccsAfter(nodes, ws, n - 1, k) + Pushes(ws[n - 1..], k)
  }

  lemma {:induction false} SuccsAfterSuffixes(nodes: map<WordIndex, Node>, ws: seq<WordIndex>, n: nat, k: WordIndex)
    requires n <= |ws|
    ensures SuccsOf(InsertedSuffixes(nodes, ws, n), k) == SuccsAfter(nodes, ws, n, k)
  {
    if n > 0 {
      SuccsAfterSuffixes(nodes, ws, n - 1, k);
      SuffixesSuccs(nodes, ws, n, k);
    }
  }

  /**
   * Entries are duplicated: when the loop of `insert_sentence` has made its
   * first `n` calls of `insert_word` on an index path without repeats, the
   * index at position `j` has gained `min(n, j + 1)` copies of the rest of
   * the path after it, one from every call that started at or before it.
   */
  lemma SuffixesDuplicate(nodes: map<WordIndex, Node>, ws: seq<WordIndex>, n: nat, j: nat)
    requires Distinct(ws) && n <= |ws| && j < |ws| - 1
    ensures SuccsOf(InsertedSuffixes(nodes, ws, n), ws[j])
         == SuccsOf(nodes, ws[j]) + Repeat(ws[j + 1..], if n <= j + 1 then n else j + 1)
  {
    SuccsAfterSuffixes(nodes, ws, n, ws[j]);
    forall i | 0 <= i < n ensures Pushes(ws[i..], ws[j]) == if i <= j then [ws[j + 1..]] else [] {
      SuffixPushes(ws, i, j);
    }
    SuccsAfterDuplicate(nodes, ws, n, j);
  }

  /** `SuffixesDuplicate` on the entries call by call, given what each call pushes onto `ws[j]`. */
  lemma {:induction false} SuccsAfterDuplicate(nodes: map<WordIndex, Node>, ws: seq<WordIndex>, n: nat, j: nat)
    requires n <= |ws| && j < |ws| - 1
    requires forall i :: 0 <= i < n ==> Pushes(ws[i..], ws[j]) == if i <= j then [ws[j + 1..]] else []
    ensures SuccsAfter(nodes, ws, n, ws[j])
         == SuccsOf(nodes, ws[j]) + Repeat(ws[j + 1..], if n <= j + 1 then n else j + 1)
  {
    if n > 0 {
      var rest, before := ws[j + 1..], SuccsOf(nodes, ws[j]);
      var pushed := Pushes(ws[n - 1..], ws[j]);
      assert pushed == if n - 1 <= j then [rest] else [];
      SuccsAfterDuplicate(nodes, ws, n - 1, j);
      var prior := SuccsAfter(nodes, ws, n - 1, ws[j]);
      assert SuccsAfter(nodes, ws, n, ws[j]) == prior + pushed;
      if n - 1 <= j {
        AppendAssoc(before, Repeat(rest, n - 1), [rest]);
      } else {
        assert prior + pushed == prior;
      }
    }
  }

  /** What the call starting at position `i` pushes onto the index at position `j`. */
  lemma SuffixPushes(ws: seq<WordIndex>, i: nat, j: nat)
    requires Distinct(ws) && i < |ws| && j < |ws| - 1
    ensures Pushes(ws[i..], ws[j]) == if i <= j then [ws[j + 1..]] else []
  {
    var p := ws[i..];
    if i <= j {
      assert p[j - i] == ws[j] && p[j - i + 1..] == ws[j + 1..];
      PushesDistinct(p, j - i);
    } else {
      PushesAbsent(p, ws[j]);
    }
  }

  /** A lemma of its own keeps this step out of the larger proof context of `SuccsAfterDuplicate`. */
  lemma AppendAssoc(a: seq<seq<WordIndex>>, b: seq<seq<WordIndex>>, c: seq<seq<WordIndex>>)
    ensures (a + b) + c == a + (b + c)
  {
  }

  /** The entries of `k` after one more call of the loop of `insert_sentence`. */
  lemma SuffixesSuccs(nodes: map<WordIndex, Node>, ws: seq<WordIndex>, n: nat, k: WordIndex)
    requires 0 < n <= |ws|
    ensures SuccsOf(InsertedSuffixes(nodes, ws, n), k)
         == SuccsOf(InsertedSuffixes(nodes, ws, n - 1), k) + Pushes(ws[n - 1..], k)
  {
    InsertedSuccs(InsertedSuffixes(nodes, ws, n - 1), ws[n - 1..], k);
  }

  /** The entries of `k` after inserting path `p`: its old ones and what `p` pushes. */
  lemma InsertedSuccs(nodes: map<WordIndex, Node>, p: seq<WordIndex>, k: WordIndex)
    ensures SuccsOf(Inserted(nodes, p), k) == SuccsOf(nodes, k) + Pushes(p, k)
  {
    if k !in nodes && k !in p {
      PushesAbsent(p, k);
    }
  }

  // ---------------------------------------------------------------------
  // The random walk.

  /** `visited` in front of the rest of a walk; a failed walk stays failed. */
  function Prefixed(visited: seq<WordIndex>, rest: Option<seq<WordIndex>>): Option<seq<WordIndex>> {
    match rest
    case None => None
    case Some(r) => Some(visited + r)
  }

  /**
   * The indices a walk visits after `cur`, drawing one choice per step: it
   * stops at the end sentinel or at a node without entries, and fails when
   * the choices run out first.
   */
  function Walk(nodes: map<WordIndex, Node>, cur: WordIndex, choices: seq<nat>): Option<seq<WordIndex>>
    requires cur in nodes && Closed(nodes)
    decreases |choices|
  {
    if nodes[cur].succs == [] || cur == WORD_SENTENCE_END then Some([])
    else if choices == [] then None
    else
      var entry := nodes[cur].succs[choices[0] % |nodes[cur].succs|];
      Prefixed([entry[0]], Walk(nodes, entry[0], choices[1..]))
  }

  /** The indices of `ids` that stand for words, not sentinels. */
  function WordIndices(ids: seq<WordIndex>): (r: seq<WordIndex>)
    ensures forall j :: 0 <= j < |r| ==> r[j] >= WORD_USER_BEGIN
  {
    if ids == [] then []
    else
      var last := ids[|ids| - 1];
      WordIndices(ids[..|ids| - 1]) + if last >= WORD_USER_BEGIN then [last] else []
  }

  /** `words` are the words whose indices are `ids`, in order. */
  ghost predicate Spells(wordMatches: map<string, WordIndex>, words: seq<string>, ids: seq<WordIndex>) {
    && |words| == |ids|
    && forall j :: 0 <= j < |words| ==> words[j] in wordMatches && wordMatches[words[j]] == ids[j]
  }

  /** Visiting one more index spells one more word exactly when the index is a word's. */
  lemma SpellsExtend(wordMatches: map<string, WordIndex>, words: seq<string>, ids: seq<WordIndex>,
                     next: WordIndex, word: string)
    requires Spells(wordMatches, words, WordIndices(ids))
    requires next >= WORD_USER_BEGIN ==> word in wordMatches && wordMatches[word] == next
    ensures Spells(wordMatches, if next >= WORD_USER_BEGIN then words + [word] else words, WordIndices(ids + [next]))
  {
    assert (ids + [next])[..|ids|] == ids;
  }

  /** One step of the walk moves the head of the picked entry from the rest of the walk to the visited path. */
  lemma WalkStep(nodes: map<WordIndex, Node>, visited: seq<WordIndex>, cur: WordIndex, choices: seq<nat>, step: nat)
    requires cur in nodes && Closed(nodes) && step < |choices|
    requires nodes[cur].succs != [] && cur != WORD_SENTENCE_END
    ensures var next := nodes[cur].succs[choices[step] % |nodes[cur].succs|][0];
      && next in nodes
      && Prefixed(visited, Walk(nodes, cur, choices[step..]))
         == Prefixed(visited + [next], Walk(nodes, next, choices[step + 1..]))
  {
    var succs := nodes[cur].succs;
    var entry := succs[choices[step] % |succs|];
    assert entry in succs;
    var next := entry[0];
    assert next in nodes;
    var rest := Walk(nodes, next, choices[step + 1..]);
    var cs := choices[step..];
    assert cs != [] && cs[0] == choices[step] && cs[1..] == choices[step + 1..];
    assert Walk(nodes, cur, cs) == Prefixed([next], rest);
    if rest.Some? {
      assert visited + ([next] + rest.value) == visited + [next] + rest.value;
    }
  }

  /** At the end sentinel or at a node without entries the walk is over: nothing follows what was visited. */
  lemma WalkDone(nodes: map<WordIndex, Node>, visited: seq<WordIndex>, cur: WordIndex, choices: seq<nat>)
    requires cur in nodes && Closed(nodes)
    requires nodes[cur].succs == [] || cur == WORD_SENTENCE_END
    ensures Prefixed(visited, Walk(nodes, cur, choices)) == Some(visited)
  {
    assert visited + [] == visited;
  }

  /** A walk that finishes stops at the end sentinel or at a node without entries. */
  lemma {:induction false} WalkStops(nodes: map<WordIndex, Node>, cur: WordIndex, choices: seq<nat>)
    requires cur in nodes && Closed(nodes)
    requires Walk(nodes, cur, choices).Some?
    ensures var ids := Walk(nodes, cur, choices).value;
      var last := if ids == [] then cur else ids[|ids| - 1];
      last in nodes && (last == WORD_SENTENCE_END || nodes[last].succs == [])
    decreases |choices|
  {
    if !(nodes[cur].succs == [] || cur == WORD_SENTENCE_END) {
      var entry := nodes[cur].succs[choices[0] % |nodes[cur].succs|];
      WalkStops(nodes, entry[0], choices[1..]);
    }
  }

  /**
   * In a well-formed graph a walk visits only interned words, except for a
   * final end sentinel, and never the begin sentinel: the chain it yields is
   * the visited path without that final end.
   */
  lemma {:induction false} WalkVisitsWords(nodes: map<WordIndex, Node>, wordMatches: map<string, WordIndex>,
                                           cur: WordIndex, choices: seq<nat>)
    requires Graph(nodes, wordMatches) && UserIndices(wordMatches) && cur in nodes && Closed(nodes)
    requires Walk(nodes, cur, choices).Some?
    ensures var ids := Walk(nodes, cur, choices).value;
      && (forall j :: 0 <= j < |ids| - 1 ==> ids[j] in wordMatches.Values)
      && (ids != [] ==> ids[|ids| - 1] == WORD_SENTENCE_END || ids[|ids| - 1] in wordMatches.Values)
      && WordIndices(ids) == if ids != [] && ids[|ids| - 1] == WORD_SENTENCE_END then ids[..|ids| - 1] else ids
    decreases |choices|
  {
    var ids := Walk(nodes, cur, choices).value;
    if !(nodes[cur].succs == [] || cur == WORD_SENTENCE_END) {
      var succs := nodes[cur].succs;
      var entry := succs[choices[0] % |succs|];
      assert entry in succs;
      assert StoredEntry(entry, nodes, wordMatches);
      var next := entry[0];
      assert next in nodes && (next == WORD_SENTENCE_END || next in wordMatches.Values);
      assert Walk(nodes, cur, choices) == Prefixed([next], Walk(nodes, next, choices[1..]));
      WalkVisitsWords(nodes, wordMatches, next, choices[1..]);
      var rest := Walk(nodes, next, choices[1..]).value;
      assert ids == [next] + rest;
      if rest != [] {
        assert next != WORD_SENTENCE_END;
      }
      VisitsWordsCons(wordMatches, next, rest);
    }
  }

  /** One more visited index in front of a path of words that may end with the end sentinel. */
  lemma VisitsWordsCons(wordMatches: map<string, WordIndex>, next: WordIndex, rest: seq<WordIndex>)
    requires UserIndices(wordMatches)
    requires next == WORD_SENTENCE_END || next in wordMatches.Values
    requires rest != [] ==> next in wordMatches.Values
    requires forall j :: 0 <= j < |rest| - 1 ==> rest[j] in wordMatches.Values
    requires rest != [] ==> rest[|rest| - 1] == WORD_SENTENCE_END || rest[|rest| - 1] in wordMatches.Values
    requires WordIndices(rest) == if rest != [] && rest[|rest| - 1] == WORD_SENTENCE_END then rest[..|rest| - 1] else rest
    ensures var ids := [next] + rest;
      && (forall j :: 0 <= j < |ids| - 1 ==> ids[j] in wordMatches.Values)
      && (ids != [] ==> ids[|ids| - 1] == WORD_SENTENCE_END || ids[|ids| - 1] in wordMatches.Values)
      && WordIndices(ids) == if ids != [] && ids[|ids| - 1] == WORD_SENTENCE_END then ids[..|ids| - 1] else ids
  {
    var ids := [next] + rest;
    if rest == [] {
      assert ids == [next];
      assert WordIndices(ids) == WordIndices([]) + if next >= WORD_USER_BEGIN then [next] else [];
    } else {
      WordIndicesCons(next, rest);
      if rest[|rest| - 1] == WORD_SENTENCE_END {
        assert ids[..|ids| - 1] == [next] + rest[..|rest| - 1];
      }
    }
  }

  /** Filtering the word indices of a path that starts with a word. */
  lemma {:induction false} WordIndicesCons(x: WordIndex, rest: seq<WordIndex>)
    requires x >= WORD_USER_BEGIN
    ensures WordIndices([x] + rest) == [x] + WordIndices(rest)
    decreases |rest|
  {
    if rest == [] {
      assert WordIndices([x]) == WordIndices([]) + [x];
    } else {
      var front := rest[..|rest| - 1];
      WordIndicesCons(x, front);
      assert ([x] + rest)[..|rest|] == [x] + front;
    }
  }

  // ---------------------------------------------------------------------
  // The `Markov` struct.

  class Markov {
    var wordMatches: map<string, WordIndex>
    var nodes: map<WordIndex, Node>
    var latestUserWord: WordIndex

    ghost predicate Valid()
      reads this
    {
      Interning(wordMatches, latestUserWord) && Graph(nodes, wordMatches)
    }

    /** `Markov::new`: no words, no nodes, the first index to hand out is WORD_USER_BEGIN. */
    constructor ()
      ensures Valid()
      ensures wordMatches == map[] && nodes == map[] && latestUserWord == WORD_USER_BEGIN
    {
      wordMatches := map[];
      nodes := map[];
      latestUserWord := WORD_USER_BEGIN;
    }

    /**
     * `get_or_insert_word_index`: the index of an interned word, or else the
     * next fresh index, which the word is then interned under.
     */
    method GetOrInsertWordIndex(word: string) returns (entry: WordIndex)
      requires Valid()
      modifies this
      ensures Valid()
      ensures nodes == old(nodes)
      ensures word in old(wordMatches) ==>
        && entry == old(wordMatches)[word]
        && wordMatches == old(wordMatches) && latestUserWord == old(latestUserWord)
      ensures word !in old(wordMatches) ==>
        && entry == old(latestUserWord)
        && wordMatches == old(wordMatches)[word := entry]
        && latestUserWord == old(latestUserWord) + 1
    {
      var latestWord := latestUserWord;
      if word !in wordMatches {
        latestWord := latestWord + 1;
        wordMatches := wordMatches[word := latestWord - 1];
        assert old(wordMatches).Values <= wordMatches.Values by {
          forall x | x in old(wordMatches).Values ensures x in wordMatches.Values {
            var w :| w in old(wordMatches) && old(wordMatches)[w] == x;
            assert wordMatches[w] == x;
          }
        }
        GraphGrowsWithTable(nodes, old(wordMatches), wordMatches);
      }
      entry := wordMatches[word];
      latestUserWord := latestWord;
    }

    /** `get_word_index`: the index of an interned word; never a sentinel in a valid model. */
    function GetWordIndex(word: string): (r: Option<WordIndex>)
      reads this
      ensures r.Some? <==> word in wordMatches
      ensures r.Some? ==> r.value == wordMatches[word]
      ensures r.Some? && Interning(wordMatches, latestUserWord) ==> WORD_USER_BEGIN <= r.value < latestUserWord
    {
      if word in wordMatches then Some(wordMatches[word]) else None
    }

    /**
     * `get_word_from_index`: a linear search of the table for a word with
     * the given index.
     */
    method GetWordFromIndex(wordIndex: WordIndex) returns (r: Option<string>)
      ensures r.Some? ==> r.value in wordMatches && wordMatches[r.value] == wordIndex
      ensures r.None? <==> wordIndex !in wordMatches.Values
      ensures Interning(wordMatches, latestUserWord) ==>
        forall w :: w in wordMatches && wordMatches[w] == wordIndex ==> r == Some(w)
    {
      var keys := wordMatches.Keys;
      while keys != {}
        invariant keys <= wordMatches.Keys
        invariant forall w :: w in wordMatches && w !in keys ==> wordMatches[w] != wordIndex
        decreases keys
      {
        var k :| k in keys;
        if wordMatches[k] == wordIndex {
          return Some(k);
        }
        keys := keys - {k};
      }
      return None;
    }

    /**
     * `insert_word`: make sure `word` has a node; if `succs` is not empty,
     * push it as one entry and insert `succs` the same way.
     */
    method InsertWord(word: WordIndex, succs: seq<WordIndex>)
      modifies this
      ensures nodes == Inserted(old(nodes), [word] + succs)
      ensures wordMatches == old(wordMatches) && latestUserWord == old(latestUserWord)
      decreases |succs|
    {
      var currentEntry := if word in nodes then nodes[word] else Node([]);
      nodes := nodes[word := currentEntry];
      if succs != [] {
        nodes := nodes[word := Node(currentEntry.succs + [succs])];
        ghost var pushed := nodes;
        assert pushed == old(nodes)[word := Node(SuccsOf(old(nodes), word) + [succs])];
        InsertedStep(old(nodes), word, succs);
        InsertWord(succs[0], succs[1..]);
        assert [succs[0]] + succs[1..] == succs;
        assert nodes == Inserted(pushed, succs);
      } else {
        assert nodes == old(nodes)[word := Node(SuccsOf(old(nodes), word))];
        InsertedWord(old(nodes), word);
        assert [word] + succs == [word];
      }
    }

    /**
     * The first half of `insert_sentence`: intern the words of the sentence
     * in order and collect their indices.
     */
    method InternWords(sentence: seq<string>) returns (indices: seq<WordIndex>)
      requires Valid()
      modifies this
      ensures Valid() && nodes == old(nodes)
      ensures forall w :: w in wordMatches <==> w in old(wordMatches) || w in sentence
      ensures forall w :: w in old(wordMatches) ==> wordMatches[w] == old(wordMatches)[w]
      ensures indices == Indices(wordMatches, sentence)
      ensures var added := NewWords(old(wordMatches).Keys, sentence);
        && latestUserWord == old(latestUserWord) + |added|
        && forall k :: 0 <= k < |added| ==> wordMatches[added[k]] == old(latestUserWord) + k
      ensures sentence == [] ==> wordMatches == old(wordMatches) && latestUserWord == old(latestUserWord)
    {
      ghost var start, base := wordMatches, latestUserWord;
      indices := [];
      InternedStart(wordMatches, latestUserWord, sentence);
      var i := 0;
      while i < |sentence|
        invariant i <= |sentence| && |indices| == i
        invariant Valid() && nodes == old(nodes)
        invariant InternedPrefix(start, base, wordMatches, latestUserWord, sentence, i, indices)
      {
        ghost var prev, prevLatest := wordMatches, latestUserWord;
        var index := GetOrInsertWordIndex(sentence[i]);
        InternedNext(start, base, prev, prevLatest, wordMatches, latestUserWord,
                     sentence, i, indices, index);
        indices := indices + [index];
        i := i + 1;
      }
      InternedAll(start, base, wordMatches, latestUserWord, sentence, indices);
    }

    /**
     * `insert_sentence`: intern the words in order, then insert, for every
     * position of a word, the remainder of the index path
     * BEGIN, words..., END from that position on.
     */
    method InsertSentence(sentence: seq<string>)
      requires Valid()
      modifies this
      ensures Valid()
      ensures forall w :: w in wordMatches <==> w in old(wordMatches) || w in sentence
      ensures forall w :: w in old(wordMatches) ==> wordMatches[w] == old(wordMatches)[w]
      ensures var added := NewWords(old(wordMatches).Keys, sentence);
        && latestUserWord == old(latestUserWord) + |added|
        && forall k :: 0 <= k < |added| ==> wordMatches[added[k]] == old(latestUserWord) + k
      ensures nodes == InsertedSuffixes(old(nodes),
        [WORD_SENTENCE_BEGIN] + Indices(wordMatches, sentence) + [WORD_SENTENCE_END], |sentence|)
      ensures sentence == [] ==>
        nodes == old(nodes) && wordMatches == old(wordMatches) && latestUserWord == old(latestUserWord)
      ensures sentence != [] ==>
        SuccsOf(nodes, WORD_SENTENCE_BEGIN)
          == SuccsOf(old(nodes), WORD_SENTENCE_BEGIN) + [Indices(wordMatches, sentence) + [WORD_SENTENCE_END]]
      ensures sentence != [] ==>
        WORD_SENTENCE_END in nodes && forall w :: w in sentence ==> wordMatches[w] in nodes
    {
      ghost var start := nodes;
      var indices := InternWords(sentence);
      var wordIndices := [WORD_SENTENCE_BEGIN] + indices + [WORD_SENTENCE_END];
      SentencePathOfIndices(wordMatches, sentence);
      InsertSuffixes(wordIndices, |sentence|);
      if sentence != [] {
        SentenceNodes(start, wordMatches, sentence);
      }
    }

    /**
     * The loop of `insert_sentence`: for each of the first `n` positions of
     * the index path `ws`, insert the path from that position on.
     */
    method InsertSuffixes(ws: seq<WordIndex>, n: nat)
      requires Valid() && n + 1 < |ws|
      requires SentencePath(ws, wordMatches) && ws[0] == WORD_SENTENCE_BEGIN
      modifies this
      ensures Valid() && wordMatches == old(wordMatches) && latestUserWord == old(latestUserWord)
      ensures nodes == InsertedSuffixes(old(nodes), ws, n)
    {
      ghost var start, table, latest := nodes, wordMatches, latestUserWord;
      for i := 0 to n
        invariant wordMatches == table && latestUserWord == latest
        invariant Interning(table, latest) && Graph(nodes, table)
        invariant nodes == InsertedSuffixes(start, ws, i)
      {
        ghost var prev := nodes;
        InsertWord(ws[i], ws[i + 1..]);
        SuffixStep(start, prev, nodes, wordMatches, ws, i);
      }
    }

    /**
     * `random_chain`: walk from the begin node, each step moving to the head
     * of the entry picked by the next choice, collecting the words of the
     * indices visited, until the end sentinel or a node without entries.
     */
    method RandomChain(choices: seq<nat>) returns (r: Result<seq<string>, ChainError>)
      requires Valid()
      ensures WORD_SENTENCE_BEGIN !in nodes ==> r == Failure(BeginNodeNotFound)
      ensures WORD_SENTENCE_BEGIN in nodes ==> Closed(nodes)
      ensures WORD_SENTENCE_BEGIN in nodes && Walk(nodes, WORD_SENTENCE_BEGIN, choices).None? ==>
        r == Failure(ChoicesExhausted)
      ensures WORD_SENTENCE_BEGIN in nodes && Walk(nodes, WORD_SENTENCE_BEGIN, choices).Some? ==>
        r.Success? && Spells(wordMatches, r.value, WordIndices(Walk(nodes, WORD_SENTENCE_BEGIN, choices).value))
      ensures r.Success? ==>
        forall w :: w in r.value ==> w in wordMatches && WORD_USER_BEGIN <= wordMatches[w] < latestUserWord
    {
      if WORD_SENTENCE_BEGIN !in nodes {
        return Failure(BeginNodeNotFound);
      }
      GraphIsClosed(nodes, wordMatches);
      var words: seq<string> := [];
      var currentIndex: WordIndex := WORD_SENTENCE_BEGIN;
      var currentNode := nodes[WORD_SENTENCE_BEGIN];
      var step := 0;
      ghost var visited: seq<WordIndex> := [];
      assert choices[0..] == choices;
      assert Prefixed([], Walk(nodes, WORD_SENTENCE_BEGIN, choices)) == Walk(nodes, WORD_SENTENCE_BEGIN, choices) by {
        if Walk(nodes, WORD_SENTENCE_BEGIN, choices).Some? {
          assert [] + Walk(nodes, WORD_SENTENCE_BEGIN, choices).value == Walk(nodes, WORD_SENTENCE_BEGIN, choices).value;
        }
      }
      while !(currentNode.succs == [] || currentIndex == WORD_SENTENCE_END)
        invariant step <= |choices|
        invariant currentIndex in nodes && currentNode == nodes[currentIndex]
        invariant Walk(nodes, WORD_SENTENCE_BEGIN, choices)
          == Prefixed(visited, Walk(nodes, currentIndex, choices[step..]))
        invariant Spells(wordMatches, words, WordIndices(visited))
        decreases |choices| - step
      {
        if step == |choices| {
          return Failure(ChoicesExhausted);
        }
        var randomSucc := currentNode.succs[choices[step] % |currentNode.succs|];
        WalkStep(nodes, visited, currentIndex, choices, step);
        assert Walk(nodes, WORD_SENTENCE_BEGIN, choices)
            == Prefixed(visited + [randomSucc[0]], Walk(nodes, randomSucc[0], choices[step + 1..]));
        step := step + 1;
        currentIndex := randomSucc[0];
        currentNode := nodes[currentIndex];
        ghost var before := visited;
        visited := visited + [currentIndex];
        if currentIndex >= WORD_USER_BEGIN {
          var word := GetWordFromIndex(currentIndex);
          SpellsExtend(wordMatches, words, before, currentIndex, word.value);
          words := words + [word.value];
        } else {
          SpellsExtend(wordMatches, words, before, currentIndex, "");
        }
      }
      WalkDone(nodes, visited, currentIndex, choices[step..]);
      return Success(words);
    }
  }
}
