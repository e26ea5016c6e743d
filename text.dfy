/**
 * The string helpers argp borrows from Go's strings, bytes and bufio packages, on strings
 * seen as sequences of characters. Case mapping and character classes follow ASCII only.
 */
module Text {
  import opened Wrappers

  predicate IsLower(c: char) { 'a' <= c <= 'z' }

  predicate IsUpper(c: char) { 'A' <= c <= 'Z' }

  predicate IsAsciiLetter(c: char) { IsLower(c) || IsUpper(c) }

  predicate IsDigit(c: char) { '0' <= c <= '9' }

  function LowerChar(c: char): char { if IsUpper(c) then (c as int + 32) as char else c }

  function UpperChar(c: char): char { if IsLower(c) then (c as int - 32) as char else c }

  /** strings.ToLower: every upper-case letter replaced by its lower-case form. */
  function Lower(s: string): (r: string)
    ensures |r| == |s|
    ensures forall i :: 0 <= i < |s| ==> r[i] == LowerChar(s[i])
    ensures forall i :: 0 <= i < |r| ==> !IsUpper(r[i])
  {
    seq(|s|, i requires 0 <= i < |s| => LowerChar(s[i]))
  }

  /** strings.ToUpper, used on one-character prefixes only. */
  function Upper(s: string): (r: string)
    ensures |r| == |s|
    ensures forall i :: 0 <= i < |r| ==> !IsLower(r[i])
  {
    seq(|s|, i requires 0 <= i < |s| => UpperChar(s[i]))
  }

  /** Lower-casing twice is lower-casing once, so a stored lower-case name looked up through
      Lower still matches. */
  lemma LowerIdempotent(s: string)
    ensures Lower(Lower(s)) == Lower(s)
  {
  }

  /** strings.IndexByte: the first position of `c`, or None when `c` does not occur. */
  function IndexOf(s: string, c: char): (r: Option<nat>)
    ensures r.None? <==> c !in s
    ensures r.Some? ==> r.value < |s| && s[r.value] == c
    ensures r.Some? ==> forall j :: 0 <= j < r.value ==> s[j] != c
  {
    if |s| == 0 then None
    else if s[0] == c then Some(0)
    else match IndexOf(s[1..], c)
      case None => None
      case Some(i) => Some(i + 1)
  }

  /** strings.Split with a one-character separator: the pieces between the separators. */
  function Split(s: string, sep: char): (r: seq<string>)
    ensures |r| >= 1
    ensures forall i :: 0 <= i < |r| ==> sep !in r[i]
    decreases |s|
  {
    match IndexOf(s, sep)
    case None => [s]
    case Some(i) => [s[..i]] + Split(s[i + 1..], sep)
  }

  /** strings.Join. */
  function Join(parts: seq<string>, sep: string): string
  {
    if |parts| == 0 then ""
    else if |parts| == 1 then parts[0]
    else parts[0] + sep + Join(parts[1..], sep)
  }

  lemma JoinCons(head: string, tail: seq<string>, sep: string)
    requires |tail| > 0
    ensures Join([head] + tail, sep) == head + sep + Join(tail, sep)
  {
    assert ([head] + tail)[1..] == tail;
  }

  /** A string is the part before position `i`, the character there and the part after. */
  lemma Around(s: string, i: nat)
    requires i < |s|
    ensures s[..i] + [s[i]] + s[i + 1..] == s
  {
  }

  /** Joining the pieces of a split with the separator gives back the original string. */
  lemma {:induction false} JoinSplit(s: string, sep: char)
    ensures Join(Split(s, sep), [sep]) == s
    decreases |s|
  {
    match IndexOf(s, sep)
    case None =>
    case Some(i) =>
      var rest := s[i + 1..];
      var tail := Split(rest, sep);
      assert Split(s, sep) == [s[..i]] + tail;
      JoinSplit(rest, sep);
      JoinCons(s[..i], tail, [sep]);
      Around(s, i);
  }

  /** The first occurrence of `c` is at `k` when it is there and nowhere before. */
  lemma IndexOfAt(s: string, c: char, k: nat)
    requires k < |s| && s[k] == c && forall j :: 0 <= j < k ==> s[j] != c
    ensures IndexOf(s, c) == Some(k)
  {
  }

  /** Splitting at the first separator: the piece before it, then the pieces of the rest. */
  lemma SplitFirst(head: string, rest: string, sep: char)
    requires sep !in head
    ensures Split(head + [sep] + rest, sep) == [head] + Split(rest, sep)
  {
    var s := head + [sep] + rest;
    assert s[..|head|] == head && s[|head| + 1..] == rest;
    IndexOfAt(s, sep, |head|);
  }

  /** A join ends with its last piece. */
  lemma {:induction false} JoinEnds(parts: seq<string>, sep: string)
    requires |parts| > 0
    ensures var j := Join(parts, sep); var last := parts[|parts| - 1];
      |last| <= |j| && j[|j| - |last|..] == last
    decreases |parts|
  {
    if |parts| > 1 {
      JoinEnds(parts[1..], sep);
      var rest := Join(parts[1..], sep);
      assert Join(parts, sep) == parts[0] + sep + rest;
      assert parts[1..][|parts| - 2] == parts[|parts| - 1];
    }
  }

  /** Splitting a join whose pieces do not hold the separator gives back the pieces. */
  lemma {:induction false} SplitJoin(parts: seq<string>, sep: char)
    requires |parts| > 0 && forall i :: 0 <= i < |parts| ==> sep !in parts[i]
    ensures Split(Join(parts, [sep]), sep) == parts
    decreases |parts|
  {
    if |parts| > 1 {
      var tail := parts[1..];
      assert parts == [parts[0]] + tail;
      JoinCons(parts[0], tail, [sep]);
      SplitFirst(parts[0], Join(tail, [sep]), sep);
      SplitJoin(tail, sep);
    }
  }

  /** Spaces as unicode.IsSpace sees them: the six ASCII ones, NEL and NO-BREAK SPACE, and the
      characters of Unicode's White_Space property above U+00FF. */
  predicate IsSpace(c: char)
  {
    c == ' ' || c == '\t' || c == '\n' || c == '\r' || c as int == 0x0B || c as int == 0x0C
    || c as int == 0x85 || c as int == 0xA0 || c as int == 0x1680
    || 0x2000 <= c as int <= 0x200A || c as int == 0x2028 || c as int == 0x2029
    || c as int == 0x202F || c as int == 0x205F || c as int == 0x3000
  }

  /** The end of the run of spaces that starts at position `i` of `s`. */
  function SpacesFrom(s: string, i: nat): (a: nat)
    requires i <= |s|
    ensures i <= a <= |s| && (forall x :: i <= x < a ==> IsSpace(s[x])) && (a == |s| || !IsSpace(s[a]))
    decreases |s| - i
  {
    if i < |s| && IsSpace(s[i]) then SpacesFrom(s, i + 1) else i
  }

  /** The start of the run of spaces that ends at position `j` of `s`, not going below `a`. */
  function SpacesBefore(s: string, a: nat, j: nat): (b: nat)
    requires a <= j <= |s|
    ensures a <= b <= j && (forall x :: b <= x < j ==> IsSpace(s[x])) && (b == a || !IsSpace(s[b - 1]))
    decreases j
  {
    if j > a && IsSpace(s[j - 1]) then SpacesBefore(s, a, j - 1) else j
  }

  /** strings.TrimSpace: leading and trailing spaces cut away. The result is the part of `s`
      from position `a` on whose margins on both sides are spaces only, and which neither
      starts nor ends with a space; this determines it. */
  function TrimSpace(s: string): (r: string)
    ensures var a := SpacesFrom(s, 0);
      && a + |r| <= |s| && r == s[a..a + |r|]
      && (forall i :: 0 <= i < a ==> IsSpace(s[i]))
      && (forall i :: a + |r| <= i < |s| ==> IsSpace(s[i]))
    ensures r == [] || (!IsSpace(r[0]) && !IsSpace(r[|r| - 1]))
  {
    var a := SpacesFrom(s, 0);
    s[a..SpacesBefore(s, a, |s|)]
  }

  /** Only one part of a text has space-only margins and no space at either end, so
      TrimSpace is the unique such part. */
  lemma TrimSpaceUnique(s: string, a: nat, b: nat)
    requires a <= b <= |s|
    requires forall i :: 0 <= i < a ==> IsSpace(s[i])
    requires forall i :: b <= i < |s| ==> IsSpace(s[i])
    requires a == b || (!IsSpace(s[a]) && !IsSpace(s[b - 1]))
    ensures TrimSpace(s) == s[a..b]
  {
    var r := TrimSpace(s);
    var a' := SpacesFrom(s, 0);
    if a < b {
      assert r != [];
      assert r[0] == s[a'] && r[|r| - 1] == s[a' + |r| - 1];
      assert a' == a;
      assert a' + |r| == b;
    } else {
      assert forall i :: 0 <= i < |s| ==> IsSpace(s[i]);
    }
  }

  /** A word boundary for strings.Title: an ASCII character other than a letter, a digit or
      `_`. Characters beyond ASCII are treated as letters. */
  predicate IsSeparator(c: char)
  {
    c as int <= 0x7F && !(IsAsciiLetter(c) || IsDigit(c) || c == '_')
  }

  /** strings.Title: every letter that starts a word upper-cased. */
  function Title(s: string): (r: string)
    ensures |r| == |s|
    ensures |s| > 0 ==> r[0] == UpperChar(s[0])
    ensures forall i :: 0 < i < |s| && IsSeparator(s[i - 1]) ==> r[i] == UpperChar(s[i])
    ensures forall i :: 0 < i < |s| && !IsSeparator(s[i - 1]) ==> r[i] == s[i]
  {
    seq(|s|, i requires 0 <= i < |s| =>
      if i == 0 || IsSeparator(s[i - 1]) then UpperChar(s[i]) else s[i])
  }

  /** The line without one trailing carriage return. */
  function DropCR(line: string): string
  {
    if |line| > 0 && line[|line| - 1] == '\r' then line[..|line| - 1] else line
  }

  /** The lines bufio.ScanLines yields: text cut at every newline, a final carriage return
      dropped from each line, and a last line only when the text does not end in a newline. */
  function Lines(text: string): (r: seq<string>)
    ensures forall i :: 0 <= i < |r| ==> '\n' !in r[i]
    ensures |text| > 0 ==> |r| > 0
    decreases |text|
  {
    if |text| == 0 then []
    else match IndexOf(text, '\n')
      case None => [DropCR(text)]
      case Some(i) => [DropCR(text[..i])] + Lines(text[i + 1..])
  }

  /** Every piece with its carriage return dropped. */
  function DropCRs(pieces: seq<string>): (r: seq<string>)
    ensures |r| == |pieces| && forall i :: 0 <= i < |r| ==> r[i] == DropCR(pieces[i])
  {
    seq(|pieces|, i requires 0 <= i < |pieces| => DropCR(pieces[i]))
  }

  /** The text without its final newline, if it ends in one. */
  function Body(text: string): string
  {
    if |text| > 0 && text[|text| - 1] == '\n' then text[..|text| - 1] else text
  }

  /** The lines are the pieces of the text between newlines, each without a final carriage
      return; a newline that ends the text starts no further line. */
  lemma {:induction false} LinesCut(text: string)
    requires |text| > 0
    ensures Lines(text) == DropCRs(Split(Body(text), '\n'))
    decreases |text|
  {
    match IndexOf(text, '\n')
    case None =>
      assert Body(text) == text;
    case Some(i) =>
      var head := text[..i];
      var rest := text[i + 1..];
      LineHead(text, i);
      if |rest| == 0 {
        assert Split(Body(text), '\n') == [head];
      } else {
        LinesCut(rest);
        BodyCons(text, i);
        SplitFirst(head, Body(rest), '\n');
        DropCRsCons(head, Split(Body(rest), '\n'));
      }
  }

  /** The text before its first newline holds no newline; when nothing follows that newline,
      it is the whole body. */
  lemma LineHead(text: string, i: nat)
    requires IndexOf(text, '\n') == Some(i)
    ensures '\n' !in text[..i] && IndexOf(text[..i], '\n') == None
    ensures i + 1 == |text| ==> Body(text) == text[..i]
  {
    assert forall j :: 0 <= j < i ==> text[..i][j] == text[j];
  }

  /** The body of a text with a newline inside: the first line, the newline, and the body of
      what follows. */
  lemma BodyCons(text: string, i: nat)
    requires i + 1 < |text| && text[i] == '\n'
    ensures Body(text) == text[..i] + "\n" + Body(text[i + 1..])
  {
    assert text == text[..i] + "\n" + text[i + 1..];
    var rest := text[i + 1..];
    if rest[|rest| - 1] == '\n' {
      assert text[..|text| - 1] == text[..i] + "\n" + rest[..|rest| - 1];
    }
  }

  lemma DropCRsCons(head: string, tail: seq<string>)
    ensures DropCRs([head] + tail) == [DropCR(head)] + DropCRs(tail)
  {
  }

  /** A text without carriage returns is its lines joined with newlines, plus the newline
      that ended it, if any. */
  lemma LinesJoin(text: string)
    requires |text| > 0 && '\r' !in text
    ensures Join(Lines(text), "\n") + (if text[|text| - 1] == '\n' then "\n" else "") == text
  {
    LinesPlain(text);
    BodyJoin(text);
  }

  /** Without carriage returns, the lines are the pieces of the text between newlines. */
  lemma LinesPlain(text: string)
    requires |text| > 0 && '\r' !in text
    ensures Lines(text) == Split(Body(text), '\n')
  {
    LinesCut(text);
    var body := Body(text);
    assert body == text[..|body|];
    assert '\r' !in body;
    JoinSplit(body, '\n');
    DropCRsNone(Split(body, '\n'), "\n");
  }

  /** Joining the pieces of the body gives it back; the final newline follows it. */
  lemma BodyJoin(text: string)
    requires |text| > 0
    ensures Join(Split(Body(text), '\n'), "\n") + (if text[|text| - 1] == '\n' then "\n" else "") == text
  {
    JoinSplit(Body(text), '\n');
    if text[|text| - 1] == '\n' {
      assert Body(text) + "\n" == text;
    }
  }

  /** Pieces whose join holds no carriage return lose nothing to DropCR. */
  lemma DropCRsNone(pieces: seq<string>, sep: string)
    requires '\r' !in Join(pieces, sep)
    ensures DropCRs(pieces) == pieces
  {
    forall i | 0 <= i < |pieces|
      ensures DropCR(pieces[i]) == pieces[i]
    {
      PieceIn(pieces, i, sep);
      assert '\r' !in pieces[i];
    }
  }

  /** Every character of a piece occurs in the join. */
  lemma {:induction false} PieceIn(parts: seq<string>, i: nat, sep: string)
    requires i < |parts|
    ensures forall c :: c in parts[i] ==> c in Join(parts, sep)
    decreases |parts|
  {
    if |parts| > 1 {
      if i > 0 {
        PieceIn(parts[1..], i - 1, sep);
      }
      assert Join(parts, sep) == parts[0] + sep + Join(parts[1..], sep);
    }
  }
}
