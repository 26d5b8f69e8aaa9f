/**
 * String primitives the application code relies on, with the exact
 * character classes of the two runtimes involved: JavaScript's
 * `String.prototype.trim` / regex `\s` (the browser code) and Python's
 * `str.strip` / `re` `\s` (the backend).  Strings are sequences of Unicode
 * scalar values.
 */
module Text {
  import opened Wrappers
  import Seqs

  /** ECMAScript WhiteSpace and LineTerminator: what `trim()` removes and `\s` matches. */
  predicate IsJsSpace(c: char) {
    c == '\t' || c == '\n' || c == '\U{B}' || c == '\U{C}' || c == '\r' || c == ' ' ||
    c == '\U{A0}' || c == '\U{1680}' || ('\U{2000}' <= c <= '\U{200A}') ||
    c == '\U{2028}' || c == '\U{2029}' || c == '\U{202F}' || c == '\U{205F}' ||
    c == '\U{3000}' || c == '\U{FEFF}'
  }

  /** ECMAScript line terminators: the characters a regex `.` does not match. */
  predicate IsLineTerminator(c: char) {
    c == '\n' || c == '\r' || c == '\U{2028}' || c == '\U{2029}'
  }

  /** Python `str.isspace()`: what `strip()` removes and `re` matches with `\s`. */
  predicate IsPySpace(c: char) {
    ('\t' <= c <= '\r') || ('\U{1C}' <= c <= '\U{1F}') || c == ' ' || c == '\U{85}' ||
    c == '\U{A0}' || c == '\U{1680}' || ('\U{2000}' <= c <= '\U{200A}') ||
    c == '\U{2028}' || c == '\U{2029}' || c == '\U{202F}' || c == '\U{205F}' ||
    c == '\U{3000}'
  }

  /** Every character of `s` is an `sp` character (so also the empty string). */
  predicate AllSpace(s: string, sp: char -> bool) {
    forall i :: 0 <= i < |s| ==> sp(s[i])
  }

  /** `s` with its maximal run of leading `sp` characters removed. */
  function TrimStart(s: string, sp: char -> bool): (r: string)
    ensures |r| <= |s| && r == s[|s| - |r|..]
    ensures r == [] || !sp(r[0])
    ensures forall i :: 0 <= i < |s| - |r| ==> sp(s[i])
  {
    if s != [] && sp(s[0]) then
      var r := TrimStart(s[1..], sp);
      assert s[1..][|s| - 1 - |r|..] == s[|s| - |r|..];
      r
    else s
  }

  /** `s` with its maximal run of trailing `sp` characters removed. */
  function TrimEnd(s: string, sp: char -> bool): (r: string)
    ensures |r| <= |s| && r == s[..|r|]
    ensures r == [] || !sp(r[|r| - 1])
    ensures forall i :: |r| <= i < |s| ==> sp(s[i])
  {
    if s != [] && sp(s[|s| - 1]) then TrimEnd(s[..|s| - 1], sp) else s
  }

  /** Neither end of `s` is an `sp` character. */
  predicate IsTrimmed(s: string, sp: char -> bool) {
    s == [] || (!sp(s[0]) && !sp(s[|s| - 1]))
  }

  /**
   * Both ends trimmed: the result is a contiguous middle part of `s` with
   * only white space before and after it, and it is empty exactly when `s`
   * is all white space.
   */
  function Trim(s: string, sp: char -> bool): (r: string)
    ensures |r| <= |s|
    ensures IsTrimmed(r, sp)
    ensures forall c :: c in r ==> c in s
    ensures r == [] <==> AllSpace(s, sp)
    ensures exists k :: IsMiddle(s, r, k, sp)
  {
    var t := TrimStart(s, sp);
    var r := TrimEnd(t, sp);
    EndsTrimmed(t, r, sp);
    TrimEmpty(s, t, r, sp);
    SliceMembers(s, |s| - |t|, |s|);
    SliceMembers(t, 0, |r|);
    TrimMiddlePart(s, t, r, sp);
    r
  }

  lemma EndsTrimmed(t: string, r: string, sp: char -> bool)
    requires t == [] || !sp(t[0])
    requires r == TrimEnd(t, sp)
    ensures IsTrimmed(r, sp)
  {
    assert r != [] ==> r[0] == t[0];
  }

  /** `m` sits at position `k` of `s` with only white space before and after it. */
  predicate IsMiddle(s: string, m: string, k: int, sp: char -> bool) {
    0 <= k <= |s| - |m| && m == s[k..k + |m|] && AllSpace(s[..k], sp) && AllSpace(s[k + |m|..], sp)
  }

  lemma TrimMiddlePart(s: string, t: string, r: string, sp: char -> bool)
    requires t == TrimStart(s, sp) && r == TrimEnd(t, sp)
    ensures IsMiddle(s, r, |s| - |t|, sp)
  {
    SliceOfSlice(s, t, r);
    Lead(s, t, sp);
    Tail(t, r, sp);
  }

  lemma SliceOfSlice(s: string, t: string, r: string)
    requires |t| <= |s| && t == s[|s| - |t|..] && |r| <= |t| && r == t[..|r|]
    ensures r == s[|s| - |t|..|s| - |t| + |r|] && t[|r|..] == s[|s| - |t| + |r|..]
  {
  }

  lemma Lead(s: string, t: string, sp: char -> bool)
    requires t == TrimStart(s, sp)
    ensures AllSpace(s[..|s| - |t|], sp)
  {
  }

  lemma Tail(t: string, r: string, sp: char -> bool)
    requires r == TrimEnd(t, sp)
    ensures AllSpace(t[|r|..], sp)
  {
  }

  /** `TrimStart` removes exactly a white-space prefix. */
  lemma LeadSplit(s: string, sp: char -> bool) returns (ws: string)
    ensures AllSpace(ws, sp) && s == ws + TrimStart(s, sp)
  {
    var t := TrimStart(s, sp);
    Lead(s, t, sp);
    ws := SuffixSplit(s, t);
  }

  lemma SuffixSplit(s: string, t: string) returns (ws: string)
    requires |t| <= |s| && t == s[|s| - |t|..]
    ensures ws == s[..|s| - |t|] && s == ws + t
  {
    ws := s[..|s| - |t|];
    assert s == ws + s[|s| - |t|..];
  }

  /** `TrimEnd` removes exactly a white-space suffix. */
  lemma TailSplit(s: string, sp: char -> bool) returns (ws: string)
    ensures AllSpace(ws, sp) && s == TrimEnd(s, sp) + ws
  {
    var r := TrimEnd(s, sp);
    ws := s[|r|..];
    Tail(s, r, sp);
    assert s == r + ws;
  }

  /** Leading white space makes no difference to `TrimStart`. */
  lemma {:induction false} TrimStartSpaces(a: string, x: string, sp: char -> bool)
    requires AllSpace(a, sp)
    ensures TrimStart(a + x, sp) == TrimStart(x, sp)
    decreases |a|
  {
    if a != [] {
      assert (a + x)[1..] == a[1..] + x;
      assert (a + x)[0] == a[0];
      assert AllSpace(a[1..], sp);
      TrimStartSpaces(a[1..], x, sp);
    } else {
      assert a + x == x;
    }
  }

  /** Trailing white space makes no difference to `TrimEnd`. */
  lemma {:induction false} TrimEndSpaces(x: string, b: string, sp: char -> bool)
    requires AllSpace(b, sp)
    ensures TrimEnd(x + b, sp) == TrimEnd(x, sp)
    decreases |b|
  {
    if b != [] {
      var b' := b[..|b| - 1];
      assert (x + b)[..|x + b| - 1] == x + b';
      assert (x + b)[|x + b| - 1] == b[|b| - 1];
      assert AllSpace(b', sp);
      TrimEndSpaces(x, b', sp);
    } else {
      assert x + b == x;
    }
  }

  /** Trimming a trimmed string padded with white space on both sides gives the string back. */
  lemma TrimMiddle(a: string, m: string, b: string, sp: char -> bool)
    requires AllSpace(a, sp) && AllSpace(b, sp) && IsTrimmed(m, sp)
    ensures Trim(a + m + b, sp) == m
  {
    assert a + m + b == a + (m + b);
    if m == [] {
      assert AllSpace(a + m + b, sp);
    } else {
      TrimStartSpaces(a, m + b, sp);
      assert TrimStart(m + b, sp) == m + b;
      TrimEndSpaces(m, b, sp);
    }
  }

  lemma TrimEmpty(s: string, t: string, r: string, sp: char -> bool)
    requires t == TrimStart(s, sp) && r == TrimEnd(t, sp)
    ensures r == [] <==> AllSpace(s, sp)
  {
    if r == [] {
      assert |t| == 0;
    }
  }

  lemma SliceMembers(s: string, i: nat, j: nat)
    requires i <= j <= |s|
    ensures forall c :: c in s[i..j] ==> c in s
  {
    forall c | c in s[i..j] ensures c in s {
      var k :| 0 <= k < j - i && s[i..j][k] == c;
      assert s[i + k] == c;
    }
  }

  lemma TrimOfTrimmed(s: string, sp: char -> bool)
    requires IsTrimmed(s, sp)
    ensures Trim(s, sp) == s
  {
  }

  function JsTrim(s: string): string { Trim(s, IsJsSpace) }

  function PyStrip(s: string): string { Trim(s, IsPySpace) }

  /** `s.split(sep)` for a one-character separator (same in JavaScript and Python). */
  function Split(s: string, sep: char): (r: seq<string>)
    ensures |r| >= 1
    ensures forall i :: 0 <= i < |r| ==> sep !in r[i]
  {
    if s == [] then [[]]
    else
      var rest := Split(s[1..], sep);
      if s[0] == sep then [[]] + rest
      else
        [[s[0]] + rest[0]] + rest[1..]
  }

  /** Joining the pieces with the separator gives back the string. */
  lemma {:induction false} JoinSplit(s: string, sep: char)
    ensures Join(Split(s, sep), sep) == s
    decreases |s|
  {
    if s != [] {
      var rest := Split(s[1..], sep);
      JoinSplit(s[1..], sep);
      assert s == [s[0]] + s[1..];
      if s[0] == sep {
        assert ([[]] + rest)[1..] == rest;
      } else {
        var r := [[s[0]] + rest[0]] + rest[1..];
        assert r[1..] == rest[1..];
        if |rest| > 1 {
          assert Join(rest, sep) == rest[0] + [sep] + Join(rest[1..], sep);
        }
      }
    }
  }

  /** `sep.join(parts)`. */
  function Join(parts: seq<string>, sep: char): string {
    if parts == [] then []
    else if |parts| == 1 then parts[0]
    else parts[0] + [sep] + Join(parts[1..], sep)
  }

  lemma {:induction false} SplitNoSepPrefix(x: string, t: string, sep: char)
    requires sep !in x
    ensures Split(x + t, sep) == [x + Split(t, sep)[0]] + Split(t, sep)[1..]
  {
    var st := Split(t, sep);
    if x == [] {
      assert x + t == t;
      assert x + st[0] == st[0];
      assert [st[0]] + st[1..] == st;
    } else {
      assert (x + t)[1..] == x[1..] + t;
      SplitNoSepPrefix(x[1..], t, sep);
      assert [x[0]] + (x[1..] + Split(t, sep)[0]) == x + Split(t, sep)[0];
    }
  }

  /** Splitting undoes joining when no part contains the separator. */
  lemma {:induction false} SplitJoin(parts: seq<string>, sep: char)
    requires |parts| >= 1
    requires forall i :: 0 <= i < |parts| ==> sep !in parts[i]
    ensures Split(Join(parts, sep), sep) == parts
  {
    if |parts| == 1 {
      SplitNoSepPrefix(parts[0], [], sep);
      assert parts[0] + [] == parts[0];
    } else {
      var j := Join(parts[1..], sep);
      SplitJoin(parts[1..], sep);
      assert ([sep] + j)[1..] == j;
      assert Split([sep] + j, sep) == [[]] + parts[1..];
      assert parts[0] + [sep] + j == parts[0] + ([sep] + j);
      SplitNoSepPrefix(parts[0], [sep] + j, sep);
      assert Join(parts, sep) == parts[0] + ([sep] + j);
      assert parts[0] + [] == parts[0];
      assert Split(Join(parts, sep), sep) == [parts[0]] + parts[1..];
      assert parts == [parts[0]] + parts[1..];
    }
  }

  lemma {:induction false} JoinConcat(a: seq<string>, b: seq<string>, sep: char)
    requires a != [] && b != []
    ensures Join(a + b, sep) == Join(a, sep) + [sep] + Join(b, sep)
  {
    if |a| == 1 {
      assert (a + b)[1..] == b;
    } else {
      assert (a + b)[1..] == a[1..] + b;
      JoinConcat(a[1..], b, sep);
    }
  }

  /** `replace("\r\n", "\n")` (left to right, non-overlapping). */
  function NormalizeNewlines(s: string): (r: string)
    ensures |r| <= |s|
    ensures forall c :: c in r ==> c in s
    ensures '\r' !in s ==> r == s
  {
    if |s| >= 2 && s[0] == '\r' && s[1] == '\n' then "\n" + NormalizeNewlines(s[2..])
    else if s == [] then []
    else [s[0]] + NormalizeNewlines(s[1..])
  }

  /** `s` with every carriage return that directly precedes a line feed deleted, and nothing else. */
  function DropCrBeforeLf(s: string): string {
    if s == [] then []
    else (if s[0] == '\r' && |s| > 1 && s[1] == '\n' then [] else [s[0]]) + DropCrBeforeLf(s[1..])
  }

  /** The occurrences of CR LF cannot overlap, so replacing them deletes exactly those carriage returns. */
  lemma {:induction false} NormalizeDropsCr(s: string)
    ensures NormalizeNewlines(s) == DropCrBeforeLf(s)
  {
    if s != [] {
      if |s| >= 2 && s[0] == '\r' && s[1] == '\n' {
        NormalizeDropsCr(s[2..]);
        assert s[1..][1..] == s[2..];
        assert DropCrBeforeLf(s[1..]) == "\n" + DropCrBeforeLf(s[2..]);
      } else {
        NormalizeDropsCr(s[1..]);
      }
    }
  }

  predicate StartsWith(s: string, prefix: string) {
    |prefix| <= |s| && s[..|prefix|] == prefix
  }

  lemma StartsWithConcat(p: string, x: string)
    ensures StartsWith(p + x, p)
  {
    assert (p + x)[..|p|] == p;
  }

  /** A string of three parts starts like its first part and ends with its last. */
  lemma Framed(p: string, a: string, m: string, b: string, t: string)
    requires StartsWith(a, p)
    ensures var r := a + m + b + t; StartsWith(r, p) && |t| <= |r| && r[|r| - |t|..] == t
  {
    var r := a + m + b + t;
    assert r[..|p|] == a[..|p|];
    assert r[|r| - |t|..] == t;
  }

  predicate OccursAt(s: string, pat: string, j: nat) {
    j + |pat| <= |s| && s[j..j + |pat|] == pat
  }

  /** The first position at or after `from` where `pat` occurs. */
  function IndexFrom(s: string, pat: string, from: nat): (r: Option<nat>)
    requires from <= |s|
    ensures r.Some? ==> from <= r.value && OccursAt(s, pat, r.value)
    ensures r.Some? ==> forall j :: from <= j < r.value ==> !OccursAt(s, pat, j)
    ensures r.None? ==> forall j :: from <= j <= |s| ==> !OccursAt(s, pat, j)
    decreases |s| - from
  {
    if OccursAt(s, pat, from) then Some(from)
    else if from == |s| then None
    else IndexFrom(s, pat, from + 1)
  }

  /** `s.indexOf(pat)`, with `None` for -1. */
  function IndexOf(s: string, pat: string): Option<nat> { IndexFrom(s, pat, 0) }

  /** `pat` can only be found where its first character is. */
  lemma IndexOfHead(s: string, pat: string)
    requires pat != []
    ensures IndexOf(s, pat).Some? ==> pat[0] in s
  {
    var r := IndexOf(s, pat);
    if r.Some? {
      assert s[r.value..r.value + |pat|][0] == s[r.value];
    }
  }

  /** Lower-cases the ASCII letters only: each of `A`..`Z` moves to its lower-case letter, all else stays. */
  function AsciiLower(s: string): (r: string)
    ensures |r| == |s|
    ensures forall i :: 0 <= i < |s| && 'A' <= s[i] <= 'Z' ==> 'a' <= r[i] <= 'z' && r[i] as int - s[i] as int == 32
    ensures forall i :: 0 <= i < |s| && !('A' <= s[i] <= 'Z') ==> r[i] == s[i]
  {
    seq(|s|, i requires 0 <= i < |s| =>
      if 'A' <= s[i] <= 'Z' then (s[i] as int + 32) as char else s[i])
  }

  /** A string lowers to "true" exactly when it spells `true` in any mix of cases. */
  lemma AsciiLowerTrue(d: string)
    ensures AsciiLower(d) == "true" <==>
      |d| == 4 && forall i :: 0 <= i < 4 ==> d[i] == "true"[i] || d[i] == "TRUE"[i]
  {
    if AsciiLower(d) == "true" {
      forall i | 0 <= i < 4 ensures d[i] == "true"[i] || d[i] == "TRUE"[i] {
        assert AsciiLower(d)[i] == "true"[i];
      }
    }
    if |d| == 4 && forall i :: 0 <= i < 4 ==> d[i] == "true"[i] || d[i] == "TRUE"[i] {
      var l := AsciiLower(d);
      forall i | 0 <= i < 4 ensures l[i] == "true"[i] {
        assert d[i] == "true"[i] || d[i] == "TRUE"[i];
      }
    }
  }

  /** Python slicing `s[:n]`. */
  function Take<T>(s: seq<T>, n: nat): (r: seq<T>)
    ensures |r| == if n < |s| then n else |s|
    ensures r == s[..|r|]
  {
    if n < |s| then s[..n] else s
  }

  /** `s.split(sep).map(trim).filter(Boolean)`: the trimmed non-empty pieces, in order. */
  function TrimmedPieces(s: string, sep: char, sp: char -> bool): (r: seq<string>)
    ensures forall i :: 0 <= i < |r| ==> r[i] != [] && IsTrimmed(r[i], sp) && sep !in r[i]
  {
    KeepTrimmedShape(Split(s, sep), sp);
    KeepTrimmedSepFree(Split(s, sep), sep, sp);
    KeepTrimmed(Split(s, sep), sp)
  }

  /** `pieces.map(trim).filter(Boolean)`. */
  function KeepTrimmed(pieces: seq<string>, sp: char -> bool): (r: seq<string>)
    ensures |r| <= |pieces|
  {
    if pieces == [] then []
    else
      var t := Trim(pieces[0], sp);
      (if t == [] then [] else [t]) + KeepTrimmed(pieces[1..], sp)
  }

  /** Trimming adds no character, so separator-free pieces stay separator-free. */
  lemma {:induction false} KeepTrimmedSepFree(pieces: seq<string>, sep: char, sp: char -> bool)
    requires forall j :: 0 <= j < |pieces| ==> sep !in pieces[j]
    ensures forall i :: 0 <= i < |KeepTrimmed(pieces, sp)| ==> sep !in KeepTrimmed(pieces, sp)[i]
  {
    if pieces != [] {
      var t := Trim(pieces[0], sp);
      var rest := KeepTrimmed(pieces[1..], sp);
      KeepTrimmedSepFree(pieces[1..], sep, sp);
      assert sep !in t;
      var r := (if t == [] then [] else [t]) + rest;
      forall i | 0 <= i < |r| ensures sep !in r[i] {
        if t == [] {
          assert r[i] == rest[i];
        } else if i > 0 {
          assert r[i] == rest[i - 1];
        }
      }
    }
  }

  /** Every kept piece is non-empty and trimmed. */
  lemma {:induction false} KeepTrimmedShape(pieces: seq<string>, sp: char -> bool)
    ensures forall i :: 0 <= i < |KeepTrimmed(pieces, sp)| ==>
      KeepTrimmed(pieces, sp)[i] != [] && IsTrimmed(KeepTrimmed(pieces, sp)[i], sp)
  {
    if pieces != [] {
      var t := Trim(pieces[0], sp);
      var rest := KeepTrimmed(pieces[1..], sp);
      KeepTrimmedShape(pieces[1..], sp);
      var r := (if t == [] then [] else [t]) + rest;
      forall i | 0 <= i < |r| ensures r[i] != [] && IsTrimmed(r[i], sp) {
        if t == [] {
          assert r[i] == rest[i];
        } else if i > 0 {
          assert r[i] == rest[i - 1];
        }
      }
    }
  }

  /** Each step keeps exactly the non-empty trimmed pieces, so the two readings agree. */
  lemma {:induction false} KeepTrimmedIsMapFilter(pieces: seq<string>, sp: char -> bool)
    ensures KeepTrimmed(pieces, sp) == Seqs.Filter(Seqs.Map(pieces, (p: string) => Trim(p, sp)), (x: string) => x != [])
  {
    if pieces != [] {
      var f := (p: string) => Trim(p, sp);
      KeepTrimmedIsMapFilter(pieces[1..], sp);
      assert Seqs.Map(pieces, f)[1..] == Seqs.Map(pieces[1..], f);
    }
  }

  /** A trimmed, non-empty, separator-free first piece is kept as the first result. */
  lemma TrimmedPiecesCons(a: string, rest: string, sep: char, sp: char -> bool)
    requires a != [] && IsTrimmed(a, sp) && sep !in a
    ensures TrimmedPieces(a + [sep] + rest, sep, sp) == [a] + TrimmedPieces(rest, sep, sp)
  {
    var rs := Split(rest, sep);
    assert ([sep] + rest)[1..] == rest;
    assert Split([sep] + rest, sep) == [[]] + rs;
    assert a + [sep] + rest == a + ([sep] + rest);
    SplitNoSepPrefix(a, [sep] + rest, sep);
    assert a + [] == a;
    var pieces := Split(a + [sep] + rest, sep);
    assert pieces == [a] + rs;
    TrimOfTrimmed(a, sp);
    assert pieces[1..] == rs;
  }

  /** A leading white-space character joins the first piece and is trimmed away. */
  lemma TrimmedPiecesSkip(c: char, rest: string, sep: char, sp: char -> bool)
    requires sp(c) && c != sep
    ensures TrimmedPieces([c] + rest, sep, sp) == TrimmedPieces(rest, sep, sp)
  {
    var rs := Split(rest, sep);
    SplitNoSepPrefix([c], rest, sep);
    TrimSkip(c, rs[0], sp);
    var pieces := Split([c] + rest, sep);
    assert pieces[1..] == rs[1..];
  }

  lemma TrimSkip(c: char, x: string, sp: char -> bool)
    requires sp(c)
    ensures Trim([c] + x, sp) == Trim(x, sp)
  {
    assert ([c] + x)[1..] == x;
  }

  /** A trimmed, non-empty, separator-free string is its only piece. */
  lemma TrimmedPiecesSingle(a: string, sep: char, sp: char -> bool)
    requires a != [] && IsTrimmed(a, sp) && sep !in a
    ensures TrimmedPieces(a, sep, sp) == [a]
  {
    SplitNoSepPrefix(a, [], sep);
    assert a + [] == a;
    TrimOfTrimmed(a, sp);
  }
}
