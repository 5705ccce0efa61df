/**
 * Model of src/logparse.rs: recognising one Konversation log line
 *
 *     [date] [hour] <user> message
 *
 * The source compiles the verbose regular expression
 * `\[(?P<date>[^\]]+)\] \s*\[(?P<hour>[^\]]+)\] \s*<(?P<user>[^>]+)> \s*(?P<msg>.*)$`
 * and takes the captures of its leftmost match.  Here that one pattern is a
 * hand-written matcher.  Each bracketed group is a non-empty run free of its
 * closing character, so its end is the first closing character after the
 * opener; `\s*` is greedy; `.` matches anything but '\n' and `$` is the end
 * of the line.  Date and hour are matched and then dropped.
 */
module LogParse {
  import opened Wrappers
  import opened Text

  datatype LogMessage = LogMessage(user: string, msg: string)

  /** `m` is the tail of `line` from some index on. */
  ghost predicate IsSuffix(m: string, line: string) {
    |m| <= |line| && m == line[|line| - |m|..]
  }

  /** The first index at or after `i` that holds `c`, or `|line|` if there is none. */
  function FindChar(line: string, i: nat, c: char): (j: nat)
    requires i <= |line|
    ensures i <= j <= |line|
    ensures forall k :: i <= k < j ==> line[k] != c
    ensures j < |line| ==> line[j] == c
    decreases |line| - i
  {
    if i == |line| || line[i] == c then i else FindChar(line, i + 1, c)
  }

  /** The end of the greedy `\s*` that starts at `i`. */
  function SkipWhitespace(line: string, i: nat): (j: nat)
    requires i <= |line|
    ensures i <= j <= |line|
    ensures forall k :: i <= k < j ==> IsWhitespace(line[k])
    ensures j < |line| ==> !IsWhitespace(line[j])
    decreases |line| - i
  {
    if i == |line| || !IsWhitespace(line[i]) then i else SkipWhitespace(line, i + 1)
  }

  /**
   * `open`, a non-empty run of characters other than `close`, then `close`,
   * starting at index `i`; the result is the index of `close`.
   */
  function GroupAt(line: string, i: nat, open: char, close: char): (r: Option<nat>)
    requires i <= |line|
    ensures r.Some? ==> Group(line, i, r.value, open, close)
    ensures r.None? ==> forall j :: !Group(line, i, j, open, close)
  {
    if i == |line| || line[i] != open then None
    else
      var j := FindChar(line, i + 1, close);
      if j == i + 1 || j == |line| then None else Some(j)
  }

  /**
   * The greedy `\s*(?P<msg>.*)$` starting at `i`: the index where the
   * message begins, provided no '\n' follows it.
   */
  function MessageStart(line: string, i: nat): (r: Option<nat>)
    requires i <= |line|
    ensures r.Some? ==> Blank(line, i, r.value) && NoNewlineFrom(line, r.value)
    ensures r.Some? ==> r.value == |line| || !IsWhitespace(line[r.value])
  {
    var m := SkipWhitespace(line, i);
    if FindChar(line, m, '\n') < |line| then None else Some(m)
  }

  /** The indices of the pattern's pieces, as in `PatternAt` below. */
  datatype Spans = Spans(dateEnd: nat, hourStart: nat, hourEnd: nat,
                         userStart: nat, userEnd: nat, msgStart: nat)

  /** Where the pattern's pieces lie when it is matched from index `s`. */
  function Locate(line: string, s: nat): (r: Option<Spans>)
    requires s <= |line|
    ensures r.Some? ==> PatternAt(line, s, r.value.dateEnd, r.value.hourStart, r.value.hourEnd,
                                  r.value.userStart, r.value.userEnd, r.value.msgStart)
    ensures r.Some? ==> r.value.msgStart == |line| || !IsWhitespace(line[r.value.msgStart])
  {
    var date := GroupAt(line, s, '[', ']');
    if date.None? then None
    else
      var hourStart := SkipWhitespace(line, date.value + 1);
      var hour := GroupAt(line, hourStart, '[', ']');
      if hour.None? then None
      else
        var userStart := SkipWhitespace(line, hour.value + 1);
        var user := GroupAt(line, userStart, '<', '>');
        if user.None? then None
        else
          var msg := MessageStart(line, user.value + 1);
          if msg.None? then None
          else Some(Spans(date.value, hourStart, hour.value, userStart, user.value, msg.value))
  }

  /** The captures `user` and `msg` of the pattern matched from index `s`. */
  function MatchAt(line: string, s: nat): Option<LogMessage>
    requires s <= |line|
  {
    match Locate(line, s)
    case None => None
    case Some(p) => Some(LogMessage(line[p.userStart + 1..p.userEnd], line[p.msgStart..]))
  }

  /** The leftmost match at index `s` or later. */
  function SearchFrom(line: string, s: nat): Option<LogMessage>
    requires s <= |line|
    decreases |line| - s
  {
    if s == |line| then None
    else
      match MatchAt(line, s)
      case Some(m) => Some(m)
      case None => SearchFrom(line, s + 1)
  }

  /** `LogMessage::from_konversation`. */
  function FromKonversation(line: string): Option<LogMessage>
  {
    SearchFrom(line, 0)
  }

  // ---------------------------------------------------------------------
  // The pattern, stated declaratively over the indices of its pieces.

  /** `open`, a non-empty run without `close`, then `close` at index `j`. */
  ghost predicate Group(line: string, i: int, j: int, open: char, close: char) {
    0 <= i && i + 1 < j < |line| && line[i] == open && line[j] == close &&
    forall k :: i < k < j ==> line[k] != close
  }

  /** `line[i..j]` is all whitespace. */
  ghost predicate Blank(line: string, i: int, j: int) {
    0 <= i <= j <= |line| && forall k :: i <= k < j ==> IsWhitespace(line[k])
  }

  /**
   * The line holds `[date]`, whitespace, `[hour]`, whitespace, `<user>`,
   * whitespace and then a message without '\n' up to its end; `s` is the
   * index of the first '[', the other indices those of `]`, `[`, `]`, `<`,
   * `>` and the message's first character.
   */
  ghost predicate PatternAt(line: string, s: int, dateEnd: int, hourStart: int, hourEnd: int,
                            userStart: int, userEnd: int, msgStart: int) {
    && Group(line, s, dateEnd, '[', ']')
    && Blank(line, dateEnd + 1, hourStart)
    && Group(line, hourStart, hourEnd, '[', ']')
    && Blank(line, hourEnd + 1, userStart)
    && Group(line, userStart, userEnd, '<', '>')
    && Blank(line, userEnd + 1, msgStart)
    && NoNewlineFrom(line, msgStart)
  }

  /** No '\n' at index `i` or later: `.*$` matches there. */
  ghost predicate NoNewlineFrom(line: string, i: int) {
    forall k :: 0 <= k < |line| && i <= k ==> line[k] != '\n'
  }

  ghost predicate PatternStartsAt(line: string, s: int) {
    exists dateEnd, hourStart, hourEnd, userStart, userEnd, msgStart ::
      PatternAt(line, s, dateEnd, hourStart, hourEnd, userStart, userEnd, msgStart)
  }

  ghost predicate PatternOccurs(line: string) {
    exists s :: PatternStartsAt(line, s)
  }

  /** A group that closes at `j` is found by scanning for its closing character. */
  lemma GroupAtFinds(line: string, i: nat, j: int, open: char, close: char)
    requires i <= |line| && Group(line, i, j, open, close)
    ensures GroupAt(line, i, open, close) == Some(j)
  {
  }

  /** A blank run followed by a non-whitespace character is exactly the greedy `\s*`. */
  lemma BlankEnd(line: string, i: nat, j: int)
    requires Blank(line, i, j) && j < |line| && !IsWhitespace(line[j])
    ensures SkipWhitespace(line, i) == j
  {
  }

  /** Whitespace from `i` to `g` and no '\n' from `g` on: the message part matches. */
  lemma MessageStartFinds(line: string, i: nat, g: int)
    requires Blank(line, i, g) && NoNewlineFrom(line, g)
    ensures MessageStart(line, i).Some?
  {
    var m := SkipWhitespace(line, i);
  }

  /** When the matcher succeeds at `s`, the pattern starts there and the result is read off it. */
  lemma MatchAtSound(line: string, s: nat)
    requires s <= |line| && MatchAt(line, s).Some?
    ensures exists dateEnd, hourStart, hourEnd, userStart, userEnd, msgStart ::
      && PatternAt(line, s, dateEnd, hourStart, hourEnd, userStart, userEnd, msgStart)
      && (msgStart == |line| || !IsWhitespace(line[msgStart]))
      && MatchAt(line, s).value == LogMessage(line[userStart + 1..userEnd], line[msgStart..])
  {
    var p := Locate(line, s).value;
    assert MatchAt(line, s).value == LogMessage(line[p.userStart + 1..p.userEnd], line[p.msgStart..]);
  }

  /** Wherever the pattern starts, the matcher succeeds. */
  lemma MatchAtComplete(line: string, s: nat, dateEnd: int, hourStart: int, hourEnd: int,
                        userStart: int, userEnd: int, msgStart: int)
    requires s <= |line|
    requires PatternAt(line, s, dateEnd, hourStart, hourEnd, userStart, userEnd, msgStart)
    ensures MatchAt(line, s).Some?
  {
    GroupAtFinds(line, s, dateEnd, '[', ']');
    BlankEnd(line, dateEnd + 1, hourStart);
    GroupAtFinds(line, hourStart, hourEnd, '[', ']');
    BlankEnd(line, hourEnd + 1, userStart);
    GroupAtFinds(line, userStart, userEnd, '<', '>');
    MessageStartFinds(line, userEnd + 1, msgStart);
  }

  /** The matcher at index `s` succeeds exactly when the pattern starts there. */
  lemma MatchAtIffPattern(line: string, s: nat)
    requires s <= |line|
    ensures MatchAt(line, s).Some? <==> PatternStartsAt(line, s)
  {
    if MatchAt(line, s).Some? {
      MatchAtSound(line, s);
    } else if PatternStartsAt(line, s) {
      var dateEnd, hourStart, hourEnd, userStart, userEnd, msgStart :|
        PatternAt(line, s, dateEnd, hourStart, hourEnd, userStart, userEnd, msgStart);
      MatchAtComplete(line, s, dateEnd, hourStart, hourEnd, userStart, userEnd, msgStart);
    }
  }

  /** The search from `s` returns the match at the first index from `s` on where the matcher succeeds. */
  lemma {:induction false} SearchFromLeftmost(line: string, s: nat)
    requires s <= |line|
    ensures SearchFrom(line, s).None? <==> forall t :: s <= t < |line| ==> MatchAt(line, t).None?
    ensures SearchFrom(line, s).Some? ==>
      exists t :: s <= t < |line| && MatchAt(line, t) == SearchFrom(line, s) &&
        forall u :: s <= u < t ==> MatchAt(line, u).None?
    decreases |line| - s
  {
    if s == |line| {
    } else if MatchAt(line, s).Some? {
      assert SearchFrom(line, s) == MatchAt(line, s);
    } else {
      assert SearchFrom(line, s) == SearchFrom(line, s + 1);
      SearchFromLeftmost(line, s + 1);
      if SearchFrom(line, s).Some? {
        var t :| s + 1 <= t < |line| && MatchAt(line, t) == SearchFrom(line, s + 1) &&
          forall u :: s + 1 <= u < t ==> MatchAt(line, u).None?;
        assert forall u :: s <= u < t ==> MatchAt(line, u).None?;
      }
    }
  }

  /**
   * `from_konversation` returns `Some` exactly when the pattern occurs somewhere
   * in the line; the result is that of the leftmost occurrence, with the user
   * taken from between the angle brackets and the message from after the
   * whitespace that follows them to the end of the line.
   */
  lemma FromKonversationSpec(line: string)
    ensures FromKonversation(line).Some? <==> PatternOccurs(line)
    ensures FromKonversation(line).Some? ==>
      exists s, dateEnd, hourStart, hourEnd, userStart, userEnd, msgStart ::
        && PatternAt(line, s, dateEnd, hourStart, hourEnd, userStart, userEnd, msgStart)
        && (msgStart == |line| || !IsWhitespace(line[msgStart]))
        && FromKonversation(line).value == LogMessage(line[userStart + 1..userEnd], line[msgStart..])
        && forall t :: 0 <= t < s ==> !PatternStartsAt(line, t)
  {
    SearchFromLeftmost(line, 0);
    if FromKonversation(line).Some? {
      var s :| 0 <= s < |line| && MatchAt(line, s) == SearchFrom(line, 0) &&
        forall u :: 0 <= u < s ==> MatchAt(line, u).None?;
      MatchAtSound(line, s);
      forall t | 0 <= t < s ensures !PatternStartsAt(line, t) {
        MatchAtIffPattern(line, t);
      }
      assert PatternStartsAt(line, s);
    } else if PatternOccurs(line) {
      var s :| PatternStartsAt(line, s);
      var dateEnd, hourStart, hourEnd, userStart, userEnd, msgStart :|
        PatternAt(line, s, dateEnd, hourStart, hourEnd, userStart, userEnd, msgStart);
      MatchAtIffPattern(line, s);
    }
  }

  /**
   * What a recognised line yields: a non-empty user without '>', and a
   * message that runs to the end of the line, holds no '\n' and is empty or
   * starts with a non-whitespace character.
   */
  lemma FromKonversationResult(line: string)
    ensures FromKonversation(line).Some? ==>
      var m := FromKonversation(line).value;
      && m.user != [] && '>' !in m.user
      && IsSuffix(m.msg, line) && '\n' !in m.msg
      && (m.msg == [] || !IsWhitespace(m.msg[0]))
  {
    FromKonversationSpec(line);
    if FromKonversation(line).Some? {
      var m := FromKonversation(line).value;
      var s, dateEnd, hourStart, hourEnd, userStart, userEnd, msgStart :|
        && PatternAt(line, s, dateEnd, hourStart, hourEnd, userStart, userEnd, msgStart)
        && (msgStart == |line| || !IsWhitespace(line[msgStart]))
        && m == LogMessage(line[userStart + 1..userEnd], line[msgStart..]);
      assert m.user[0] == line[userStart + 1];
      forall k | 0 <= k < |m.user| ensures m.user[k] != '>' {
        assert m.user[k] == line[userStart + 1 + k];
      }
      forall k | 0 <= k < |m.msg| ensures m.msg[k] != '\n' {
        assert m.msg[k] == line[msgStart + k];
      }
    }
  }
}
