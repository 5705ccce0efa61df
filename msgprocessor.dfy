/**
 * Model of src/msgprocessor.rs: turning a parsed log line into a user name
 * and a list of words for training.
 *
 * The user name is lower-cased and cut before the first `[`, `(` or `{`.
 * The message is split on whitespace; fields containing `://` (links) are
 * dropped, and every other field keeps only its alphanumeric characters and
 * `' " - _ ( )`, lower-cased.  A field with nothing to keep becomes an empty
 * word; it is not dropped.
 */
module MsgProcessor {
  import opened Text
  import LogParse

  datatype ProcessedMessage = ProcessedMessage(user: string, words: seq<string>)

  // ---------------------------------------------------------------------
  // The user name.

  /** The characters that end a user name: `[`, `(` and `{`. */
  predicate IsUserCut(c: char) {
    c == '[' || c == '(' || c == '{'
  }

  /** `take_while(|c| !"[({".contains(c))`: the longest prefix without a cut character. */
  function TakeUntilCut(s: string): (r: string)
    ensures r <= s
    ensures forall i :: 0 <= i < |r| ==> !IsUserCut(r[i])
    ensures |r| < |s| ==> IsUserCut(s[|r|])
  {
    if s == [] || IsUserCut(s[0]) then [] else [s[0]] + TakeUntilCut(s[1..])
  }

  /** The user field of `ProcessedMessage::from`. */
  function NormalizeUser(name: string): string {
    TakeUntilCut(Lower(name))
  }

  /**
   * The normalised user is the lower-cased name up to its first cut
   * character: a prefix of the lower-cased name with no cut character and no
   * upper-case letter, and empty exactly when the name is empty or starts
   * with a cut character.
   */
  lemma NormalizeUserSpec(name: string)
    ensures var user := NormalizeUser(name);
      && user <= Lower(name)
      && (forall i :: 0 <= i < |user| ==> !IsUserCut(user[i]) && !IsAsciiUpper(user[i]))
      && (|user| < |name| ==> IsUserCut(name[|user|]))
      && (user == [] <==> name == [] || IsUserCut(name[0]))
  {
    var lower, user := Lower(name), NormalizeUser(name);
    forall i | 0 <= i < |user| ensures !IsAsciiUpper(user[i]) {
      assert user[i] == lower[i] == LowerChar(name[i]);
    }
    if |user| < |name| {
      assert lower[|user|] == LowerChar(name[|user|]);
    }
    if name != [] {
      assert lower[0] == LowerChar(name[0]);
    }
  }

  // ---------------------------------------------------------------------
  // The words.

  predicate IsAsciiAlphanumeric(c: char) {
    'a' <= c <= 'z' || 'A' <= c <= 'Z' || '0' <= c <= '9'
  }

  /** The characters a word keeps: alphanumeric ones and `' " - _ ( )`. */
  predicate IsKept(c: char) {
    IsAsciiAlphanumeric(c) || c == '\'' || c == '"' || c == '-' || c == '_' || c == '(' || c == ')'
  }

  /** The kept characters of `s`, in order. */
  function Keep(s: string): (r: string)
    ensures |r| <= |s|
    ensures forall i :: 0 <= i < |r| ==> IsKept(r[i])
  {
    if s == [] then [] else (if IsKept(s[0]) then [s[0]] else []) + Keep(s[1..])
  }

  /** The word made from one field: its kept characters, lower-cased. */
  function CleanWord(field: string): string {
    Lower(Keep(field))
  }

  /** `str::contains("://")`, scanning from the front. */
  predicate HasUrlMarker(s: string) {
    |s| >= 3 && (s[..3] == "://" || HasUrlMarker(s[1..]))
  }

  /** The fields that are not links, in order. */
  function UrlFree(fields: seq<string>): (r: seq<string>)
    ensures |r| <= |fields|
  {
    if fields == [] then []
    else (if HasUrlMarker(fields[0]) then [] else [fields[0]]) + UrlFree(fields[1..])
  }

  /** The cleaned words of a list of fields, in order. */
  function CleanWords(fields: seq<string>): (r: seq<string>)
    ensures |r| == |fields|
    ensures forall i :: 0 <= i < |r| ==> r[i] == CleanWord(fields[i])
  {
    if fields == [] then [] else [CleanWord(fields[0])] + CleanWords(fields[1..])
  }

  /** The words field of `ProcessedMessage::from`. */
  function ProcessWords(msg: string): seq<string> {
    CleanWords(UrlFree(SplitWhitespace(msg)))
  }

  /**
   * `ProcessedMessage::from`: the user is the lower-cased name up to its
   * first cut character; there is one word per field that is not a link,
   * at the field's position: the field's kept characters, in their order,
   * lower-cased, so each word is as long as those characters and made of
   * lower-case kept characters only.
   */
  function FromLogMessage(m: LogParse.LogMessage): (r: ProcessedMessage)
    ensures r.user <= Lower(m.user)
    ensures forall i :: 0 <= i < |r.user| ==> !IsUserCut(r.user[i]) && !IsAsciiUpper(r.user[i])
    ensures |r.user| < |m.user| ==> IsUserCut(m.user[|r.user|])
    ensures var fields := UrlFree(SplitWhitespace(m.msg));
      && |r.words| == |fields|
      && (forall j :: 0 <= j < |fields| ==> r.words[j] == Lower(Keep(fields[j])))
      && forall j :: 0 <= j < |fields| ==> |r.words[j]| == |Keep(fields[j])|
    ensures forall w, i :: w in r.words && 0 <= i < |w| ==> !IsAsciiUpper(w[i]) && IsKept(w[i])
  {
    NormalizeUserSpec(m.user);
    var fields := UrlFree(SplitWhitespace(m.msg));
    CleanWordsSpec(fields);
    ProcessedMessage(NormalizeUser(m.user), ProcessWords(m.msg))
  }

  // ---------------------------------------------------------------------
  // Properties of the words.

  /** `://` occurs in `s` at position `i`. */
  ghost predicate MarkerAt(s: string, i: int) {
    0 <= i && i + 3 <= |s| && s[i..i + 3] == "://"
  }

  /** `HasUrlMarker` is `contains("://")`: the marker occurs at some position. */
  lemma {:induction false} HasUrlMarkerSpec(s: string)
    ensures HasUrlMarker(s) <==> exists i :: MarkerAt(s, i)
  {
    if |s| >= 3 {
      HasUrlMarkerSpec(s[1..]);
      if s[..3] == "://" {
        assert MarkerAt(s, 0);
      } else if HasUrlMarker(s[1..]) {
        var i :| MarkerAt(s[1..], i);
        assert s[i + 1..i + 4] == s[1..][i..i + 3];
        assert MarkerAt(s, i + 1);
      }
      if exists i :: MarkerAt(s, i) {
        var i :| MarkerAt(s, i);
        if i > 0 {
          assert s[1..][i - 1..i + 2] == s[i..i + 3];
          assert MarkerAt(s[1..], i - 1);
        } else {
          assert s[..3] == s[0..3];
        }
      }
    }
  }

  /** `Keep` works character by character: it distributes over concatenation. */
  lemma {:induction false} KeepAppend(a: string, b: string)
    ensures Keep(a + b) == Keep(a) + Keep(b)
  {
    if a != [] {
      assert (a + b)[1..] == a[1..] + b && (a + b)[0] == a[0];
      KeepAppend(a[1..], b);
      var head := if IsKept(a[0]) then [a[0]] else [];
      assert head + (Keep(a[1..]) + Keep(b)) == (head + Keep(a[1..])) + Keep(b);
    } else {
      assert a + b == b;
    }
  }

  /** Keeping is idempotent: a kept word keeps all of its characters. */
  lemma {:induction false} KeepIdempotent(s: string)
    ensures Keep(Keep(s)) == Keep(s)
  {
    if s != [] {
      KeepIdempotent(s[1..]);
      KeepAppend(if IsKept(s[0]) then [s[0]] else [], Keep(s[1..]));
    }
  }

  /** Every character of `s` that is kept appears in `Keep(s)`, and only those. */
  lemma {:induction false} KeepMembers(s: string)
    ensures forall c :: c in Keep(s) <==> c in s && IsKept(c)
  {
    if s != [] {
      KeepMembers(s[1..]);
      assert s == [s[0]] + s[1..];
    }
  }

  /** A word never holds an upper-case letter, and holds only kept characters. */
  lemma CleanWordSpec(field: string)
    ensures var w := CleanWord(field);
      && |w| == |Keep(field)|
      && forall i :: 0 <= i < |w| ==> !IsAsciiUpper(w[i]) && IsKept(w[i])
  {
    var k, w := Keep(field), CleanWord(field);
    forall i | 0 <= i < |w| ensures IsKept(w[i]) {
      assert w[i] == LowerChar(k[i]);
      assert IsKept(k[i]);
    }
  }

  /** Every cleaned word is as long as its field's kept characters, lower-case and made of kept characters. */
  lemma CleanWordsSpec(fields: seq<string>)
    ensures var words := CleanWords(fields);
      && (forall j :: 0 <= j < |fields| ==> |words[j]| == |Keep(fields[j])|)
      && (forall w, i :: w in words && 0 <= i < |w| ==> !IsAsciiUpper(w[i]) && IsKept(w[i]))
  {
    var words := CleanWords(fields);
    forall j | 0 <= j < |fields| ensures |words[j]| == |Keep(fields[j])| {
      CleanWordSpec(fields[j]);
    }
    forall w, i | w in words && 0 <= i < |w| ensures !IsAsciiUpper(w[i]) && IsKept(w[i]) {
      var j :| 0 <= j < |words| && words[j] == w;
      CleanWordSpec(fields[j]);
    }
  }

  /** Dropping links distributes over concatenation, so the order of fields is kept. */
  lemma {:induction false} UrlFreeAppend(a: seq<string>, b: seq<string>)
    ensures UrlFree(a + b) == UrlFree(a) + UrlFree(b)
  {
    if a != [] {
      assert (a + b)[1..] == a[1..] + b && (a + b)[0] == a[0];
      UrlFreeAppend(a[1..], b);
      var head := if HasUrlMarker(a[0]) then [] else [a[0]];
      assert head + (UrlFree(a[1..]) + UrlFree(b)) == (head + UrlFree(a[1..])) + UrlFree(b);
    } else {
      assert a + b == b;
    }
  }

  /** The fields that survive are exactly the fields without a link marker. */
  lemma {:induction false} UrlFreeMembers(fields: seq<string>)
    ensures forall f :: f in UrlFree(fields) <==> f in fields && !HasUrlMarker(f)
  {
    if fields != [] {
      UrlFreeMembers(fields[1..]);
      assert fields == [fields[0]] + fields[1..];
    }
  }

  /** A lone field that is not a link and has no kept character is the single word "". */
  lemma UnkeptFieldWords(field: string)
    requires field != [] && NoWhitespace(field) && !HasUrlMarker(field)
    requires forall i :: 0 <= i < |field| ==> !IsKept(field[i])
    ensures ProcessWords(field) == [""]
  {
    LeadingWordOfWordThenSpace(field, []);
    assert field + [] == field;
    assert field[|field|..] == [];
    assert SplitWhitespace(field) == [field];
    KeepNone(field);
  }

  /** A field without kept characters keeps nothing. */
  lemma {:induction false} KeepNone(s: string)
    requires forall i :: 0 <= i < |s| ==> !IsKept(s[i])
    ensures Keep(s) == []
  {
    if s != [] {
      KeepNone(s[1..]);
    }
  }

  /**
   * A field with nothing to keep gives an empty word at its position
   * instead of being dropped.
   */
  lemma UnkeptFieldGivesEmptyWord(a: string, field: string, b: string)
    requires field != [] && NoWhitespace(field) && !HasUrlMarker(field)
    requires forall i :: 0 <= i < |field| ==> !IsKept(field[i])
    ensures ProcessWords(a + [' '] + field + [' '] + b) == ProcessWords(a) + [""] + ProcessWords(b)
  {
    ProcessWordsAround(a, field, b);
    UnkeptFieldWords(field);
  }

  /** The words of a field between two spaces sit between the words before and after it. */
  lemma ProcessWordsAround(a: string, field: string, b: string)
    ensures ProcessWords(a + [' '] + field + [' '] + b) == ProcessWords(a) + ProcessWords(field) + ProcessWords(b)
  {
    var rest := field + [' '] + b;
    assert a + [' '] + field + [' '] + b == a + [' '] + rest;
    ProcessWordsConcat(a, ' ', rest);
    ProcessWordsConcat(field, ' ', b);
    assert ProcessWords(a) + (ProcessWords(field) + ProcessWords(b)) == ProcessWords(a) + ProcessWords(field) + ProcessWords(b);
  }

  /** The words of two parts joined by whitespace are the words of the parts. */
  lemma ProcessWordsConcat(a: string, c: char, b: string)
    requires IsWhitespace(c)
    ensures ProcessWords(a + [c] + b) == ProcessWords(a) + ProcessWords(b)
  {
    SplitConcat(a, c, b);
    UrlFreeAppend(SplitWhitespace(a), SplitWhitespace(b));
    CleanWordsAppend(UrlFree(SplitWhitespace(a)), UrlFree(SplitWhitespace(b)));
  }

  lemma CleanWordsAppend(a: seq<string>, b: seq<string>)
    ensures CleanWords(a + b) == CleanWords(a) + CleanWords(b)
  {
  }

  /** `LeadingWord` stops at the first whitespace, whatever follows it. */
  lemma {:induction false} LeadingWordPrefix(a: string, t: string)
    requires |LeadingWord(a)| < |a|
    ensures LeadingWord(a + t) == LeadingWord(a)
  {
    if !IsWhitespace(a[0]) {
      assert (a + t)[1..] == a[1..] + t;
      LeadingWordPrefix(a[1..], t);
    }
  }

  /** Splitting on whitespace distributes over a whitespace character. */
  lemma {:induction false} SplitConcat(a: string, c: char, b: string)
    requires IsWhitespace(c)
    ensures SplitWhitespace(a + [c] + b) == SplitWhitespace(a) + SplitWhitespace(b)
    decreases |a|
  {
    var s := a + [c] + b;
    if a == [] {
      assert s[1..] == b;
    } else if IsWhitespace(a[0]) {
      assert s[1..] == a[1..] + [c] + b;
      SplitConcat(a[1..], c, b);
    } else {
      var w := LeadingWord(a);
      if |w| < |a| {
        LeadingWordPrefix(a, [c] + b);
        assert s == a + ([c] + b);
        assert s[|w|..] == a[|w|..] + [c] + b;
        SplitConcat(a[|w|..], c, b);
      } else {
        assert w == a;
        LeadingWordOfWordThenSpace(a, [c] + b);
        assert s == a + ([c] + b);
        assert s[|w|..] == [c] + b;
        assert ([c] + b)[1..] == b;
        assert a[|w|..] == [];
      }
    }
  }
}
