/**
 * Character and string helpers shared by the modules: the ASCII part of
 * Rust's whitespace class, ASCII case folding, `str::split_whitespace`
 * and `join`.  Strings are `seq<char>`; only ASCII behaviour is modelled.
 */
module Text {

  /**
   * Rust's `char::is_whitespace` (and regex `\s`) restricted to ASCII: the
   * space and the five control characters tab, line feed, vertical tab,
   * form feed and carriage return, which are consecutive code points.
   */
  predicate IsWhitespace(c: char) {
    c == ' ' || '\t' <= c <= '\r'
  }

  predicate IsAsciiUpper(c: char) {
    'A' <= c <= 'Z'
  }

  /** `char::to_ascii_lowercase`. */
  function LowerChar(c: char): (r: char)
    ensures !IsAsciiUpper(r)
    ensures IsAsciiUpper(c) ==> r as int == c as int + 32
    ensures !IsAsciiUpper(c) ==> r == c
  {
    if IsAsciiUpper(c) then (c as int + 32) as char else c
  }

  /** `str::to_ascii_lowercase`, also `str::to_lowercase` on ASCII input. */
  function Lower(s: string): (r: string)
    ensures |r| == |s|
    ensures forall i :: 0 <= i < |s| ==> r[i] == LowerChar(s[i])
  {
    seq(|s|, i requires 0 <= i < |s| => LowerChar(s[i]))
  }

  predicate NoWhitespace(s: string) {
    forall i :: 0 <= i < |s| ==> !IsWhitespace(s[i])
  }

  /** The longest prefix of `s` without whitespace. */
  function LeadingWord(s: string): (w: string)
    ensures w <= s && NoWhitespace(w)
    ensures |w| < |s| ==> IsWhitespace(s[|w|])
  {
    if s == [] || IsWhitespace(s[0]) then [] else [s[0]] + LeadingWord(s[1..])
  }

  /** `str::split_whitespace`: the maximal runs of non-whitespace characters, in order. */
  function SplitWhitespace(s: string): (fields: seq<string>)
    ensures forall i :: 0 <= i < |fields| ==> fields[i] != [] && NoWhitespace(fields[i])
    decreases |s|
  {
    if s == [] then []
    else if IsWhitespace(s[0]) then SplitWhitespace(s[1..])
    else
      var w := LeadingWord(s);
      [w] + SplitWhitespace(s[|w|..])
  }

  /** `[&str]::join(sep)`. */
  function Join(parts: seq<string>, sep: string): (r: string)
  {
    if parts == [] then []
    else if |parts| == 1 then parts[0]
    else parts[0] + sep + Join(parts[1..], sep)
  }

  lemma {:induction false} LeadingWordOfWordThenSpace(w: string, rest: string)
    requires NoWhitespace(w)
    requires rest == [] || IsWhitespace(rest[0])
    ensures LeadingWord(w + rest) == w
  {
    if w != [] {
      assert (w + rest)[1..] == w[1..] + rest;
      LeadingWordOfWordThenSpace(w[1..], rest);
    }
  }

  /**
   * Splitting the single-space join of whitespace-free, non-empty words
   * gives the words back.
   */
  lemma {:induction false} SplitJoin(parts: seq<string>)
    requires forall i :: 0 <= i < |parts| ==> parts[i] != [] && NoWhitespace(parts[i])
    ensures SplitWhitespace(Join(parts, " ")) == parts
  {
    if parts == [] {
    } else if |parts| == 1 {
      LeadingWordOfWordThenSpace(parts[0], []);
      assert parts[0] + [] == parts[0];
      assert parts[0][|parts[0]|..] == [];
    } else {
      var w, tail := parts[0], Join(parts[1..], " ");
      var s := w + " " + tail;
      assert s == w + (" " + tail);
      LeadingWordOfWordThenSpace(w, " " + tail);
      assert s[|w|..] == " " + tail;
      assert (" " + tail)[1..] == tail;
      SplitJoin(parts[1..]);
      assert [parts[0]] + parts[1..] == parts;
    }
  }
}
