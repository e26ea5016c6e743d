/**
 * Token lists as ScanVar sees them: the command-line words still to be read. This module
 * holds truncEnd, which finds the bracket group a composite literal spans, and the small
 * rewrites ScanVar applies to the front and back of the list.
 */
module Tokens {
  import opened Wrappers

  predicate IsOpen(c: char) { c == '{' || c == '[' }

  predicate IsClose(c: char) { c == '}' || c == ']' }

  /** The closing bracket expected for an opening one (Go adds 2 to its code). */
  function Closer(c: char): (r: char)
    requires IsOpen(c)
    ensures IsClose(r) && r as int == c as int + 2
  {
    if c == '{' then '}' else ']'
  }

  /** A measure of a token list: its characters plus one per token. */
  function Size(s: seq<string>): nat
  {
    if |s| == 0 then 0 else |s[0]| + 1 + Size(s[1..])
  }

  lemma {:induction false} SizeAppend(a: seq<string>, b: seq<string>)
    ensures Size(a + b) == Size(a) + Size(b)
  {
    if |a| > 0 {
      assert (a + b)[0] == a[0];
      assert (a + b)[1..] == a[1..] + b;
      SizeAppend(a[1..], b);
    } else {
      assert a + b == b;
    }
  }

  lemma SizeFront(t: string, s: seq<string>)
    ensures Size([t] + s) == |t| + 1 + Size(s)
  {
    assert ([t] + s)[1..] == s;
  }

  /** A suffix of a token list is no larger than the list. */
  lemma {:induction false} SizeSuffix(s: seq<string>, k: nat)
    requires k <= |s|
    ensures Size(s[k..]) <= Size(s)
    ensures k > 0 ==> Size(s[k..]) < Size(s)
  {
    if k > 0 {
      SizeSuffix(s[1..], k - 1);
      assert s[1..][k - 1..] == s[k..];
    }
  }

  /** What truncEnd returns: no group (a mismatched or missing closing bracket), or the
      tokens up to the closing bracket of the first group and the tokens after it; `split`
      tells that the closing bracket sat inside a token, which was cut in two. */
  datatype Trunc = Unmatched | Matched(head: seq<string>, tail: seq<string>, split: bool)

  /** The position (token, character) of the bracket that closes the first group, scanning
      from character `i` of token `n` with the closing brackets still expected on `levels`
      (the innermost last). None when a closing bracket does not match or never comes. */
  function CloseFrom(s: seq<string>, n: nat, i: nat, levels: seq<char>): (r: Option<(nat, nat)>)
    requires n <= |s| && (n < |s| ==> i <= |s[n]|)
    ensures r.Some? ==> n <= r.value.0 < |s| && r.value.1 < |s[r.value.0]|
    ensures r.Some? ==> IsClose(s[r.value.0][r.value.1])
    ensures r.Some? && r.value.0 == n ==> i <= r.value.1
    decreases |s| - n, if n < |s| then |s[n]| - i else 0
  {
    if n == |s| then None
    else if i == |s[n]| then CloseFrom(s, n + 1, 0, levels)
    else
      var c := s[n][i];
      if IsOpen(c) then CloseFrom(s, n, i + 1, levels + [Closer(c)])
      else if !IsClose(c) then CloseFrom(s, n, i + 1, levels)
      else if |levels| == 0 || levels[|levels| - 1] != c then None
      else if |levels| == 1 then Some((n, i))
      else CloseFrom(s, n, i + 1, levels[..|levels| - 1])
  }

  /** The token list cut just after character `p` of token `m`. */
  function Cut(s: seq<string>, m: nat, p: nat): Trunc
    requires m < |s| && p < |s[m]|
  {
    if p + 1 == |s[m]| then Matched(s[..m + 1], s[m + 1..], false)
    else Matched(s[..m] + [s[m][..p + 1]], [s[m][p + 1..]] + s[m + 1..], true)
  }

  /** truncEnd as a function: the first bracket group of `s` and what follows it. */
  function Bracketed(s: seq<string>): (r: Trunc)
    // the pieces put back together give the list that was cut
    ensures r.Matched? && !r.split ==> r.head + r.tail == s
    ensures r.Matched? && r.split ==>
      |r.head| > 0 && |r.tail| > 0 && r.tail[0] != []
      && r.head[..|r.head| - 1] + [r.head[|r.head| - 1] + r.tail[0]] + r.tail[1..] == s
    // a group of a non-empty list ends with its closing bracket, at the end of a token
    ensures |s| > 0 && r.Matched? ==>
      |r.head| > 0 && var last := r.head[|r.head| - 1];
      |last| > 0 && IsClose(last[|last| - 1])
    // and starts where the list starts
    ensures |s| > 0 && r.Matched? && |s[0]| > 0 ==> |r.head[0]| > 0 && r.head[0][0] == s[0][0]
    // what is left is strictly smaller
    ensures |s| > 0 && r.Matched? ==> Size(r.tail) < Size(s)
  {
    if |s| == 0 then Matched([], [], false)
    else match CloseFrom(s, 0, 0, [])
      case None => Unmatched
      case Some((m, p)) => CutFacts(s, m, p); Cut(s, m, p)
  }

  lemma CutFacts(s: seq<string>, m: nat, p: nat)
    requires m < |s| && p < |s[m]|
    ensures var r := Cut(s, m, p);
      && (!r.split ==> r.head + r.tail == s)
      && (r.split ==>
            |r.head| > 0 && |r.tail| > 0 && r.tail[0] != []
            && r.head[..|r.head| - 1] + [r.head[|r.head| - 1] + r.tail[0]] + r.tail[1..] == s)
      && |r.head| > 0 && r.head[|r.head| - 1][|r.head[|r.head| - 1]| - 1] == s[m][p]
      && (|s[0]| > 0 ==> |r.head[0]| > 0 && r.head[0][0] == s[0][0])
      && Size(r.tail) < Size(s)
  {
    if p + 1 == |s[m]| {
      assert s[..m + 1] + s[m + 1..] == s;
      SizeSuffix(s, m + 1);
    } else {
      CutSplitShape(s, m, p);
      CutSplitSmaller(s, m, p);
    }
  }

  lemma CutSplitShape(s: seq<string>, m: nat, p: nat)
    requires m < |s| && p + 1 < |s[m]|
    ensures var h := s[..m] + [s[m][..p + 1]];
      var t := [s[m][p + 1..]] + s[m + 1..];
      && h[..|h| - 1] + [h[|h| - 1] + t[0]] + t[1..] == s
      && (|s[0]| > 0 ==> |h[0]| > 0 && h[0][0] == s[0][0])
  {
    var h := s[..m] + [s[m][..p + 1]];
    var t := [s[m][p + 1..]] + s[m + 1..];
    assert h[..|h| - 1] == s[..m];
    assert h[|h| - 1] + t[0] == s[m];
    assert t[1..] == s[m + 1..];
    assert s == s[..m] + [s[m]] + s[m + 1..];
  }

  lemma CutSplitSmaller(s: seq<string>, m: nat, p: nat)
    requires m < |s| && p + 1 < |s[m]|
    ensures Size([s[m][p + 1..]] + s[m + 1..]) < Size(s)
  {
    SizeSuffix(s, m);
    assert s[m..] == [s[m]] + s[m + 1..];
    SizeFront(s[m], s[m + 1..]);
    SizeFront(s[m][p + 1..], s[m + 1..]);
  }

  /** truncEnd, as written in Go: a scan over the characters of every token that keeps the
      stack of closing brackets still expected. */
  method TruncEnd(s: seq<string>) returns (r: Trunc)
    ensures r == Bracketed(s)
  {
    if |s| == 0 {
      return Matched([], s, false);
    }
    var levels: seq<char> := [];
    var n := 0;
    while n < |s|
      invariant n <= |s|
      invariant CloseFrom(s, n, 0, levels) == CloseFrom(s, 0, 0, [])
    {
      var item := s[n];
      var i := 0;
      while i < |item|
        invariant i <= |item|
        invariant CloseFrom(s, n, i, levels) == CloseFrom(s, 0, 0, [])
      {
        var c := item[i];
        if c == '{' || c == '[' {
          levels := levels + [Closer(c)];
        } else if c == '}' || c == ']' {
          if |levels| == 0 || levels[|levels| - 1] != c {
            return Unmatched;
          } else if |levels| == 1 {
            if i + 1 == |item| {
              return Matched(s[..n + 1], s[n + 1..], false);
            }
            return Matched(s[..n] + [item[..i + 1]], [item[i + 1..]] + s[n + 1..], true);
          }
          levels := levels[..|levels| - 1];
        }
        i := i + 1;
      }
      n := n + 1;
    }
    return Unmatched;
  }

  /** Leading empty tokens skipped. */
  function DropEmpty(s: seq<string>): (r: seq<string>)
    ensures |r| <= |s| && r == s[|s| - |r|..]
    ensures forall i :: 0 <= i < |s| - |r| ==> s[i] == []
    ensures r == [] || r[0] != []
    ensures Size(r) <= Size(s)
  {
    if |s| > 0 && s[0] == [] then DropEmpty(s[1..]) else s
  }

  /** The first character of the list removed, and its token with it when nothing is left. */
  function DropFirst(s: seq<string>): (r: seq<string>)
    requires |s| > 0 && |s[0]| > 0
    ensures Size(r) < Size(s)
    ensures |s[0]| == 1 ==> r == s[1..]
    ensures |s[0]| > 1 ==> r == [s[0][1..]] + s[1..]
  {
    SizeFront(s[0], s[1..]);
    if |s[0]| == 1 then s[1..] else SizeFront(s[0][1..], s[1..]); [s[0][1..]] + s[1..]
  }

  /** The last character of the list removed, and its token with it when nothing is left. */
  function DropLast(s: seq<string>): (r: seq<string>)
    requires |s| > 0 && |s[|s| - 1]| > 0
    ensures |s[|s| - 1]| == 1 ==> r == s[..|s| - 1]
    ensures |s[|s| - 1]| > 1 ==> r == s[..|s| - 1] + [s[|s| - 1][..|s[|s| - 1]| - 1]]
  {
    var last := s[|s| - 1];
    if |last| == 1 then s[..|s| - 1] else s[..|s| - 1] + [last[..|last| - 1]]
  }

  /** The head of a bracket group with its outer brackets removed. */
  function Strip(h: seq<string>): seq<string>
    requires |h| > 0 && |h[0]| > 0 && IsOpen(h[0][0])
    requires var last := h[|h| - 1]; |last| > 0 && IsClose(last[|last| - 1])
  {
    var t := DropFirst(h);
    assert |h| > 1 ==> t[|t| - 1] == h[|h| - 1];
    DropLast(t)
  }

  // ---------------------------------------------------------------------------------------
  // Where truncEnd cuts

  /** The characters of the tokens one after the other. */
  function Concat(s: seq<string>): string
  {
    if |s| == 0 then [] else s[0] + Concat(s[1..])
  }

  /** The closing brackets still expected after reading `w` with no group open, innermost
      last; None once a closing bracket met no open group or a group of the other kind. */
  function Levels(w: string): Option<seq<char>>
  {
    if |w| == 0 then Some([]) else Push(Levels(w[..|w| - 1]), w[|w| - 1])
  }

  /** One character read against the closing brackets expected. */
  function Push(l: Option<seq<char>>, c: char): Option<seq<char>>
  {
    if l.None? then None
    else if IsOpen(c) then Some(l.value + [Closer(c)])
    else if !IsClose(c) then l
    else if |l.value| > 0 && l.value[|l.value| - 1] == c then Some(l.value[..|l.value| - 1])
    else None
  }

  /** Character `q` of `w` is a closing bracket that closes every group opened before it:
      the brackets of `w` up to it are balanced. */
  predicate Closes(w: string, q: nat)
  {
    q < |w| && IsClose(w[q]) && Levels(w[..q + 1]) == Some([])
  }

  /** The position in the concatenated text of character `i` of token `n`. */
  function Pos(s: seq<string>, n: nat, i: nat): nat
    requires n <= |s|
  {
    |Concat(s[..n])| + i
  }

  lemma {:induction false} ConcatAppend(a: seq<string>, b: seq<string>)
    ensures Concat(a + b) == Concat(a) + Concat(b)
  {
    if |a| > 0 {
      assert (a + b)[1..] == a[1..] + b;
      ConcatAppend(a[1..], b);
    } else {
      assert a + b == b;
    }
  }

  lemma ConcatOne(t: string)
    ensures Concat([t]) == t
  {
    assert [t][1..] == [];
  }

  /** The text of the tokens up to token `n` is that before it followed by token `n`. */
  lemma ConcatSnoc(s: seq<string>, n: nat)
    requires n < |s|
    ensures Concat(s[..n + 1]) == Concat(s[..n]) + s[n]
  {
    var a := s[..n];
    assert s[..n + 1] == a + [s[n]];
    ConcatAppend(a, [s[n]]);
    ConcatOne(s[n]);
  }

  /** The text of the tokens before token `n`, token `n`, then the text of those after it. */
  lemma ConcatAt(s: seq<string>, n: nat)
    requires n < |s|
    ensures Concat(s) == Concat(s[..n]) + s[n] + Concat(s[n + 1..])
    ensures Concat(s[..n + 1]) == Concat(s[..n]) + s[n]
  {
    var a := s[..n + 1];
    var b := s[n + 1..];
    assert s == a + b;
    ConcatAppend(a, b);
    ConcatSnoc(s, n);
  }

  /** Once a closing bracket has not matched, no later prefix is read without error. */
  lemma {:induction false} LevelsStayNone(w: string, x: nat, y: nat)
    requires x <= y <= |w| && Levels(w[..x]) == None
    ensures Levels(w[..y]) == None
    decreases y - x
  {
    if x < y {
      assert (w[..x + 1])[..x] == w[..x];
      LevelsStayNone(w, x + 1, y);
    }
  }

  /** Reading one more character of `w`. */
  lemma LevelsStep(w: string, q: nat)
    requires q < |w|
    ensures Levels(w[..q + 1]) == Push(Levels(w[..q]), w[q])
  {
    assert (w[..q + 1])[..q] == w[..q];
  }

  /** One character of the text read with `levels` expected: whether it balances everything
      before it, and, when it is a closing bracket that matches nothing, that nothing after
      it does. */
  lemma FlatStep(w: string, q: nat, levels: seq<char>)
    requires q < |w| && Levels(w[..q]) == Some(levels)
    ensures Levels(w[..q + 1]) == Push(Some(levels), w[q])
    ensures Closes(w, q) <==> IsClose(w[q]) && levels == [w[q]]
    ensures IsClose(w[q]) && (|levels| == 0 || levels[|levels| - 1] != w[q]) ==>
      forall x :: q <= x ==> !Closes(w, x)
  {
    LevelsStep(w, q);
    if IsClose(w[q]) && (|levels| == 0 || levels[|levels| - 1] != w[q]) {
      forall x | q <= x
        ensures !Closes(w, x)
      {
        if x < |w| {
          LevelsStayNone(w, q + 1, x + 1);
        }
      }
    }
  }

  /** Character `i` of token `n` sits at Pos(s, n, i) of the concatenated text. */
  lemma PosAt(s: seq<string>, n: nat, i: nat)
    requires n < |s| && i < |s[n]|
    ensures Pos(s, n, i) < |Concat(s)| && Concat(s)[Pos(s, n, i)] == s[n][i]
  {
    ConcatAt(s, n);
  }

  /** The end of token `n` is the start of token `n + 1`. */
  lemma PosNext(s: seq<string>, n: nat)
    requires n < |s|
    ensures Pos(s, n, |s[n]|) == Pos(s, n + 1, 0)
  {
    ConcatSnoc(s, n);
  }

  /** `r` is the first position at or after `p` where the text `w` read so far closes every
      group, or None when no such position exists. */
  ghost predicate FirstClose(w: string, p: nat, r: Option<nat>)
  {
    match r
    case Some(x) => p <= x && Closes(w, x) && forall q :: p <= q < x ==> !Closes(w, q)
    case None => forall q :: p <= q ==> !Closes(w, q)
  }

  /** A position where nothing closes can be skipped when looking for the first close. */
  lemma FirstCloseBack(w: string, p: nat, r: Option<nat>)
    requires !Closes(w, p) && FirstClose(w, p + 1, r)
    ensures FirstClose(w, p, r)
  {
  }

  /** The position in the concatenated text of what CloseFrom found. */
  function Found(s: seq<string>, r: Option<(nat, nat)>): Option<nat>
    requires r.Some? ==> r.value.0 <= |s|
  {
    if r.None? then None else Some(Pos(s, r.value.0, r.value.1))
  }

  /** CloseFrom, from character `i` of token `n` with `levels` expected, finds the first
      balancing closing bracket of the concatenated text at or after that point, and finds
      none exactly when there is none. */
  lemma {:induction false} CloseFromFirst(s: seq<string>, n: nat, i: nat, levels: seq<char>)
    requires n <= |s| && (n < |s| ==> i <= |s[n]|) && (n == |s| ==> i == 0)
    requires Pos(s, n, i) <= |Concat(s)|
    requires Levels(Concat(s)[..Pos(s, n, i)]) == Some(levels)
    ensures FirstClose(Concat(s), Pos(s, n, i), Found(s, CloseFrom(s, n, i, levels)))
    decreases |s| - n, if n < |s| then |s[n]| - i else 0, 1
  {
    if n == |s| {
      assert s[..n] == s;
    } else if i == |s[n]| {
      PosNext(s, n);
      CloseFromFirst(s, n + 1, 0, levels);
    } else {
      CloseFromChar(s, n, i, levels);
    }
  }

  /** The step of CloseFromFirst at character `i` of token `n`. */
  lemma {:induction false} CloseFromChar(s: seq<string>, n: nat, i: nat, levels: seq<char>)
    requires n < |s| && i < |s[n]|
    requires Pos(s, n, i) <= |Concat(s)|
    requires Levels(Concat(s)[..Pos(s, n, i)]) == Some(levels)
    ensures FirstClose(Concat(s), Pos(s, n, i), Found(s, CloseFrom(s, n, i, levels)))
    decreases |s| - n, |s[n]| - i, 0
  {
    var w := Concat(s);
    var q := Pos(s, n, i);
    var c := s[n][i];
    PosAt(s, n, i);
    FlatStep(w, q, levels);
    assert Pos(s, n, i + 1) == q + 1;
    if IsOpen(c) {
      CloseFromFirst(s, n, i + 1, levels + [Closer(c)]);
      FirstCloseBack(w, q, Found(s, CloseFrom(s, n, i + 1, levels + [Closer(c)])));
    } else if !IsClose(c) {
      CloseFromFirst(s, n, i + 1, levels);
      FirstCloseBack(w, q, Found(s, CloseFrom(s, n, i + 1, levels)));
    } else if |levels| > 1 && levels[|levels| - 1] == c {
      var l := levels[..|levels| - 1];
      CloseFromFirst(s, n, i + 1, l);
      FirstCloseBack(w, q, Found(s, CloseFrom(s, n, i + 1, l)));
    }
  }

  /** truncEnd cuts the list just after the first closing bracket that balances every bracket
      before it, so the head's brackets are balanced and close nowhere earlier; it finds no
      group exactly when no closing bracket does that: a closing bracket with no group open,
      or of the wrong kind, comes first, or the groups never close. */
  lemma BracketedCuts(s: seq<string>)
    requires |s| > 0
    ensures Bracketed(s).Unmatched? <==> forall q :: !Closes(Concat(s), q)
    ensures Bracketed(s).Matched? ==>
      var h := Concat(Bracketed(s).head);
      && 0 < |h| <= |Concat(s)| && h == Concat(s)[..|h|]
      && Levels(h) == Some([])
      && Closes(Concat(s), |h| - 1)
      && forall q :: 0 <= q < |h| - 1 ==> !Closes(Concat(s), q)
  {
    assert s[..0] == [];
    CloseFromFirst(s, 0, 0, []);
    match CloseFrom(s, 0, 0, [])
    case None =>
    case Some((m, p)) =>
      CutHead(s, m, p);
  }

  /** The text of the head of a cut ends at the cut. */
  lemma CutHead(s: seq<string>, m: nat, p: nat)
    requires m < |s| && p < |s[m]|
    ensures var h := Concat(Cut(s, m, p).head);
      |h| == Pos(s, m, p) + 1 && |h| <= |Concat(s)| && h == Concat(s)[..|h|]
  {
    ConcatAt(s, m);
    var pre := Concat(s[..m]);
    var h := Concat(Cut(s, m, p).head);
    if p + 1 == |s[m]| {
      assert h == pre + s[m];
    } else {
      var a := s[..m];
      var piece := s[m][..p + 1];
      assert Cut(s, m, p).head == a + [piece];
      ConcatAppend(a, [piece]);
      ConcatOne(piece);
      assert s[m] == piece + s[m][p + 1..];
    }
  }

  // ---------------------------------------------------------------------------------------
  // Groups whose inner tokens hold no bracket

  /** A text without brackets. */
  predicate BracketFree(t: string)
  {
    forall x :: 0 <= x < |t| ==> !IsOpen(t[x]) && !IsClose(t[x])
  }

  /** The tokens `ts` written inside a group opened by `o`, the brackets glued to the first
      and the last token, as a shell passes `{a b c}`. */
  function Enclose(o: char, ts: seq<string>): (r: seq<string>)
    requires IsOpen(o)
    ensures |r| == if |ts| == 0 then 1 else |ts|
  {
    if |ts| == 0 then [[o, Closer(o)]]
    else if |ts| == 1 then [[o] + ts[0] + [Closer(o)]]
    else [[o] + ts[0]] + ts[1..|ts| - 1] + [ts[|ts| - 1] + [Closer(o)]]
  }

  /** Characters without brackets change nothing the search expects. */
  lemma {:induction false} SkipFree(s: seq<string>, n: nat, i: nat, j: nat, levels: seq<char>)
    requires n < |s| && i <= j <= |s[n]|
    requires forall x :: i <= x < j ==> !IsOpen(s[n][x]) && !IsClose(s[n][x])
    ensures CloseFrom(s, n, i, levels) == CloseFrom(s, n, j, levels)
    decreases j - i
  {
    if i < j {
      SkipFree(s, n, i + 1, j, levels);
    }
  }

  /** Tokens without brackets change nothing the search expects. */
  lemma {:induction false} SkipTokens(s: seq<string>, n: nat, m: nat, levels: seq<char>)
    requires n <= m <= |s|
    requires forall x :: n <= x < m ==> BracketFree(s[x])
    ensures CloseFrom(s, n, 0, levels) == CloseFrom(s, m, 0, levels)
    decreases m - n
  {
    if n < m {
      SkipFree(s, n, 0, |s[n]|, levels);
      SkipTokens(s, n + 1, m, levels);
    }
  }

  /** An opening bracket first: the search goes on expecting its closing bracket. */
  lemma OpenFirst(s: seq<string>)
    requires |s| > 0 && |s[0]| > 0 && IsOpen(s[0][0])
    ensures CloseFrom(s, 0, 0, []) == CloseFrom(s, 0, 1, [Closer(s[0][0])])
  {
    assert [] + [Closer(s[0][0])] == [Closer(s[0][0])];
  }

  /** The one closing bracket expected closes the group where it stands. */
  lemma CloseHere(s: seq<string>, n: nat, i: nat, c: char)
    requires n < |s| && i < |s[n]| && s[n][i] == c && IsClose(c)
    ensures CloseFrom(s, n, i, [c]) == Some((n, i))
  {
  }

  /** An opening bracket: the search goes on expecting its closing bracket as well. */
  lemma OpenStep(s: seq<string>, n: nat, i: nat, levels: seq<char>)
    requires n < |s| && i < |s[n]| && IsOpen(s[n][i])
    ensures CloseFrom(s, n, i, levels) == CloseFrom(s, n, i + 1, levels + [Closer(s[n][i])])
  {
  }

  /** A closing bracket that matches an inner group: the search goes on with the outer ones. */
  lemma CloseStep(s: seq<string>, n: nat, i: nat, levels: seq<char>)
    requires n < |s| && i < |s[n]| && |levels| > 1 && s[n][i] == levels[|levels| - 1]
    requires IsClose(s[n][i])
    ensures CloseFrom(s, n, i, levels) == CloseFrom(s, n, i + 1, levels[..|levels| - 1])
  {
  }

  /** A token without brackets followed by the closing bracket expected. */
  lemma CloseAfter(s: seq<string>, n: nat, i: nat, t: string, c: char)
    requires n < |s| && IsClose(c) && BracketFree(t) && i + |t| + 1 == |s[n]|
    requires s[n][i..] == t + [c]
    ensures CloseFrom(s, n, i, [c]) == Some((n, i + |t|))
  {
    assert forall x :: i <= x < i + |t| ==> s[n][x] == t[x - i];
    SkipFree(s, n, i, i + |t|, [c]);
    assert s[n][i + |t|] == (t + [c])[|t|];
    CloseHere(s, n, i + |t|, c);
  }

  /** A group whose inner tokens are non-empty and hold no bracket ends with its last token,
      and its inner tokens are what Strip leaves. */
  lemma EncloseGroup(o: char, ts: seq<string>, rest: seq<string>)
    requires IsOpen(o)
    requires forall x :: 0 <= x < |ts| ==> ts[x] != [] && BracketFree(ts[x])
    ensures Bracketed(Enclose(o, ts) + rest) == Matched(Enclose(o, ts), rest, false)
    ensures Strip(Enclose(o, ts)) == ts
  {
    var g := Enclose(o, ts);
    var s := g + rest;
    var c := Closer(o);
    var last := |g| - 1;
    assert s[..last + 1] == g && s[last + 1..] == rest;
    assert s[0] == g[0] && s[0][0] == o;
    OpenFirst(s);
    if |ts| == 0 {
      CloseAfter(s, 0, 1, [], c);
    } else if |ts| == 1 {
      assert s[0][1..] == ts[0] + [c];
      CloseAfter(s, 0, 1, ts[0], c);
    } else {
      EncloseMany(o, ts, rest);
    }
    StripEnclose(o, ts);
  }

  /** The search over a group of two or more tokens reaches the bracket closing the last. */
  lemma EncloseMany(o: char, ts: seq<string>, rest: seq<string>)
    requires IsOpen(o) && |ts| > 1
    requires forall x :: 0 <= x < |ts| ==> ts[x] != [] && BracketFree(ts[x])
    ensures var s := Enclose(o, ts) + rest; var last := |ts| - 1;
      last < |s| && |s[last]| > 0 && CloseFrom(s, 0, 1, [Closer(o)]) == Some((last, |s[last]| - 1))
  {
    var g := Enclose(o, ts);
    var s := g + rest;
    var c := Closer(o);
    var last := |g| - 1;
    assert s[0] == [o] + ts[0];
    SkipFree(s, 0, 1, |s[0]|, [c]);
    assert CloseFrom(s, 0, |s[0]|, [c]) == CloseFrom(s, 1, 0, [c]);
    forall x | 1 <= x < last
      ensures BracketFree(s[x])
    {
      assert s[x] == ts[x];
    }
    SkipTokens(s, 1, last, [c]);
    assert s[last] == ts[last] + [c];
    assert s[last][0..] == s[last];
    CloseAfter(s, last, 0, ts[last], c);
  }

  lemma StripEnclose(o: char, ts: seq<string>)
    requires IsOpen(o)
    requires forall x :: 0 <= x < |ts| ==> ts[x] != []
    ensures var g := Enclose(o, ts);
      |g[0]| > 0 && IsOpen(g[0][0]) && |g[|g| - 1]| > 0 && IsClose(g[|g| - 1][|g[|g| - 1]| - 1])
    ensures Strip(Enclose(o, ts)) == ts
  {
    var g := Enclose(o, ts);
    var c := Closer(o);
    if |ts| == 1 {
      assert g[0][1..] == ts[0] + [c];
      assert DropFirst(g) == [ts[0] + [c]];
      assert (ts[0] + [c])[..|ts[0]|] == ts[0];
    } else if |ts| > 1 {
      var t := DropFirst(g);
      assert g[0][1..] == ts[0];
      assert t == [ts[0]] + ts[1..|ts| - 1] + [ts[|ts| - 1] + [c]];
      assert (ts[|ts| - 1] + [c])[..|ts[|ts| - 1]|] == ts[|ts| - 1];
      assert t[..|t| - 1] + [ts[|ts| - 1]] == ts;
    }
  }
}
