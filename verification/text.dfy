/** The Python string, bytes and dict built-ins the server relies on:
    `find`, `split`, `join`, `replace`, `lower`, `isdigit`, `int`, `str` of an
    integer, and a dict built by a comprehension. */
module Text {
  import opened Wrappers

  /** An octet sequence. Each octet is a character whose code is the octet's
      value, so a `bytes` value and the `str` it decodes to are one sequence. */
  type Bytes = string

  const CRLF: string := "\r\n"
  const BlankLine: string := "\r\n\r\n"

  predicate OccursAt(s: string, p: string, i: nat) {
    i + |p| <= |s| && s[i..i + |p|] == p
  }

  ghost predicate NoOccurrence(s: string, p: string) {
    forall i: nat :: !OccursAt(s, p, i)
  }

  predicate StartsWith(s: string, p: string) {
    OccursAt(s, p, 0)
  }

  predicate EndsWith(s: string, p: string) {
    |p| <= |s| && OccursAt(s, p, |s| - |p|)
  }

  lemma StartsWithSplit(s: string, p: string)
    requires StartsWith(s, p)
    ensures s == p + s[|p|..]
  {
    assert s[..|p|] == p;
    assert s == s[..|p|] + s[|p|..];
  }

  /** `s.find(p, from)`: the first index at or after `from` where `p` occurs. */
  function Find(s: string, p: string, from: nat): (r: Option<nat>)
    ensures r.Some? ==> from <= r.value && OccursAt(s, p, r.value)
    ensures forall i: nat :: from <= i && (r.None? || i < r.value) ==> !OccursAt(s, p, i)
    decreases |s| - from
  {
    if |s| < from + |p| then None
    else if OccursAt(s, p, from) then Some(from)
    else Find(s, p, from + 1)
  }

  lemma FindIs(s: string, p: string, from: nat, g: nat)
    requires from <= g && OccursAt(s, p, g)
    requires forall i: nat :: from <= i < g ==> !OccursAt(s, p, i)
    ensures Find(s, p, from) == Some(g)
  {
  }

  lemma FindNone(s: string, p: string)
    requires NoOccurrence(s, p)
    ensures Find(s, p, 0) == None
  {
  }

  lemma NoOccurrenceBefore(s: string, p: string, i: nat)
    requires p != "" && i <= |s|
    requires forall j: nat :: j < i ==> !OccursAt(s, p, j)
    ensures NoOccurrence(s[..i], p)
  {
    forall j: nat
      ensures !OccursAt(s[..i], p, j)
    {
      if j + |p| <= i {
        assert s[..i][j..j + |p|] == s[j..j + |p|];
        assert !OccursAt(s, p, j);
      }
    }
  }

  /** `sep.join(parts)` */
  function Join(parts: seq<string>, sep: string): string {
    if |parts| == 0 then ""
    else if |parts| == 1 then parts[0]
    else parts[0] + sep + Join(parts[1..], sep)
  }

  /** `s.split(sep)` for a non-empty separator: the pieces between the
      successive leftmost occurrences of `sep`. */
  function Split(s: string, sep: string): (r: seq<string>)
    requires sep != ""
    ensures |r| > 0
    decreases |s|
  {
    match Find(s, sep, 0)
    case None => [s]
    case Some(i) => [s[..i]] + Split(s[i + |sep|..], sep)
  }

  /** Joining the pieces of a split with the separator gives the string back. */
  lemma {:induction false} SplitRejoins(s: string, sep: string)
    requires sep != ""
    ensures Join(Split(s, sep), sep) == s
    decreases |s|
  {
    match Find(s, sep, 0)
    case None =>
    case Some(i) =>
      SplitRejoins(s[i + |sep|..], sep);
      assert s == s[..i] + sep + s[i + |sep|..];
  }

  /** No piece of a split contains the separator. */
  lemma {:induction false} SplitPiecesFree(s: string, sep: string)
    requires sep != ""
    ensures forall k :: 0 <= k < |Split(s, sep)| ==> NoOccurrence(Split(s, sep)[k], sep)
    decreases |s|
  {
    match Find(s, sep, 0)
    case None =>
      forall j: nat
        ensures !OccursAt(s, sep, j)
      {
      }
    case Some(i) =>
      NoOccurrenceBefore(s, sep, i);
      SplitPiecesFree(s[i + |sep|..], sep);
  }

  /** The first piece of a split is a prefix of the string. */
  lemma SplitHead(s: string, sep: string)
    requires sep != ""
    ensures |Split(s, sep)[0]| <= |s| && Split(s, sep)[0] == s[..|Split(s, sep)[0]|]
  {
  }

  /** No proper suffix of `sep` is also a prefix of it, so two occurrences of
      `sep` never overlap. True of every separator the server uses. */
  predicate NoBorder(sep: string) {
    forall d :: 0 < d < |sep| ==> sep[d..] != sep[..|sep| - d]
  }

  lemma SeparatorsHaveNoBorder()
    ensures NoBorder(CRLF) && NoBorder(": ") && NoBorder("/")
  {
    assert CRLF[1..] != CRLF[..1] by {
      assert CRLF[1..][0] == '\n';
    }
    assert ": "[1..] != ": "[..1] by {
      assert ": "[1..][0] == ' ';
    }
  }

  lemma SplitSingle(s: string, sep: string)
    requires sep != "" && (NoOccurrence(s, sep) || Find(s, sep, 0) == None)
    ensures Split(s, sep) == [s]
  {
    if NoOccurrence(s, sep) {
      FindNone(s, sep);
    }
  }

  /** An occurrence of `p` inside the prefix `a` is still the first one in `a + x`. */
  lemma FindInPrefix(a: string, x: string, p: string, i: nat)
    requires Find(a, p, 0) == Some(i)
    ensures Find(a + x, p, 0) == Some(i)
  {
    var s := a + x;
    assert s[i..i + |p|] == a[i..i + |p|];
    forall j: nat | j < i
      ensures OccursAt(s, p, j) == OccursAt(a, p, j)
    {
      assert s[j..j + |p|] == a[j..j + |p|];
    }
    FindIs(s, p, 0, i);
  }

  /** An occurrence of `sep` that starts inside `a` and runs into the `sep`
      right after `a` overlaps it, so `sep` has a border. */
  lemma StraddleIsBorder(a: string, b: string, sep: string, j: nat)
    requires OccursAt(a + sep + b, sep, j) && j < |a| < j + |sep|
    ensures sep[|a| - j..] == sep[..|sep| - (|a| - j)]
  {
    var s := a + sep + b;
    var d := |a| - j;
    forall t | 0 <= t < |sep| - d
      ensures sep[d..][t] == sep[..|sep| - d][t]
    {
      assert sep[d + t] == s[j + d + t];
      assert s[|a| + t] == sep[t];
    }
  }

  /** With `sep` absent from `a` and free of borders, the first `sep` in
      `a + sep + b` is the one right after `a`. */
  lemma FindAfterPrefix(a: string, b: string, sep: string)
    requires sep != "" && NoBorder(sep) && NoOccurrence(a, sep)
    ensures Find(a + sep + b, sep, 0) == Some(|a|)
  {
    var s := a + sep + b;
    assert s[|a|..|a| + |sep|] == sep;
    forall j: nat | j < |a|
      ensures !OccursAt(s, sep, j)
    {
      if j + |sep| <= |a| {
        assert s[j..j + |sep|] == a[j..j + |sep|];
        assert !OccursAt(a, sep, j);
      } else if OccursAt(s, sep, j) {
        StraddleIsBorder(a, b, sep, j);
      }
    }
    FindIs(s, sep, 0, |a|);
  }

  /** Splitting `a + sep + b` splits `a` and `b` independently. */
  lemma {:induction false} SplitConcat(a: string, b: string, sep: string)
    requires sep != "" && NoBorder(sep)
    ensures Split(a + sep + b, sep) == Split(a, sep) + Split(b, sep)
    decreases |a|
  {
    var f := Find(a, sep, 0);
    if f.None? {
      SplitAfterPiece(a, b, sep);
      SplitSingle(a, sep);
    } else {
      var i := f.value;
      var a' := a[i + |sep|..];
      SplitBeforePiece(a, b, sep, i);
      SplitConcat(a', b, sep);
      ConcatAssoc([a[..i]], Split(a', sep), Split(b, sep));
    }
  }

  lemma ConcatAssoc<T>(x: seq<T>, y: seq<T>, z: seq<T>)
    ensures x + (y + z) == (x + y) + z
  {
  }

  /** `a` holds no separator: it is the first piece of `a + sep + b`. */
  lemma SplitAfterPiece(a: string, b: string, sep: string)
    requires sep != "" && NoBorder(sep) && Find(a, sep, 0) == None
    ensures Split(a + sep + b, sep) == [a] + Split(b, sep)
  {
    var s := a + sep + b;
    FindAfterPrefix(a, b, sep);
    SplitAt(s, sep, |a|);
    assert s[..|a|] == a;
    assert s[|a| + |sep|..] == b;
  }

  /** The first separator lies inside `a`: both splits begin with the same
      piece. */
  lemma SplitBeforePiece(a: string, b: string, sep: string, i: nat)
    requires sep != "" && Find(a, sep, 0) == Some(i)
    ensures Split(a + sep + b, sep) == [a[..i]] + Split(a[i + |sep|..] + sep + b, sep)
    ensures Split(a, sep) == [a[..i]] + Split(a[i + |sep|..], sep)
  {
    var s := a + sep + b;
    assert s == a + (sep + b);
    FindInPrefix(a, sep + b, sep, i);
    SplitAt(s, sep, i);
    SplitAt(a, sep, i);
    assert s[i + |sep|..] == a[i + |sep|..] + sep + b;
    assert s[..i] == a[..i];
  }

  lemma SplitAt(s: string, sep: string, i: nat)
    requires sep != "" && Find(s, sep, 0) == Some(i)
    ensures Split(s, sep) == [s[..i]] + Split(s[i + |sep|..], sep)
  {
  }

  /** `sep.join` followed by `split(sep)` gives the pieces back. */
  lemma {:induction false} SplitJoin(parts: seq<string>, sep: string)
    requires sep != "" && NoBorder(sep) && |parts| > 0
    requires forall k :: 0 <= k < |parts| ==> NoOccurrence(parts[k], sep)
    ensures Split(Join(parts, sep), sep) == parts
  {
    SplitSingle(parts[0], sep);
    if |parts| > 1 {
      SplitConcat(parts[0], Join(parts[1..], sep), sep);
      SplitJoin(parts[1..], sep);
    }
  }

  /** Joining two non-empty lists puts one separator between them. */
  lemma {:induction false} JoinAppend(a: seq<string>, b: seq<string>, sep: string)
    requires |a| > 0 && |b| > 0
    ensures Join(a + b, sep) == Join(a, sep) + sep + Join(b, sep)
    decreases |a|
  {
    if |a| == 1 {
      assert (a + b)[1..] == b;
    } else {
      assert (a + b)[1..] == a[1..] + b;
      JoinAppend(a[1..], b, sep);
    }
  }

  /** A one-character pattern occurs exactly where its character does. */
  lemma NoCharOccurrence(x: string, c: char)
    ensures NoOccurrence(x, [c]) <==> c !in x
  {
    if c in x {
      var i :| 0 <= i < |x| && x[i] == c;
      assert x[i..i + 1] == [c];
      assert OccursAt(x, [c], i);
    } else {
      forall i: nat
        ensures !OccursAt(x, [c], i)
      {
        if i + 1 <= |x| {
          assert x[i..i + 1] == [x[i]];
        }
      }
    }
  }

  /** Splitting on a character a string that does not hold it. */
  lemma SplitNoChar(a: string, c: char)
    requires c !in a
    ensures Split(a, [c]) == [a]
  {
    NoCharOccurrence(a, c);
    SplitSingle(a, [c]);
  }

  /** A piece without the character `c`, then `c`: the piece is split off. */
  lemma SplitOnChar(a: string, b: string, c: char)
    requires c !in a
    ensures Split(a + [c] + b, [c]) == [a] + Split(b, [c])
  {
    NoCharOccurrence(a, c);
    FindNone(a, [c]);
    assert NoBorder([c]);
    SplitAfterPiece(a, b, [c]);
  }

  /** Two pieces without `c` around one `c` split back into the two. */
  lemma SplitPair(a: string, b: string, c: char)
    requires c !in a && c !in b
    ensures Split(a + [c] + b, [c]) == [a, b]
  {
    SplitOnChar(a, b, c);
    SplitNoChar(b, c);
  }

  /** `\r\n` at `k`, character by character. */
  lemma CRLFAt(s: string, k: nat)
    ensures OccursAt(s, CRLF, k) <==> k + 2 <= |s| && s[k] == '\r' && s[k + 1] == '\n'
  {
    if k + 2 <= |s| {
      assert s[k..k + 2] == [s[k], s[k + 1]];
    }
  }

  /** `\r\n\r\n` at `k`, character by character. */
  lemma BlankLineAt(s: string, k: nat)
    ensures OccursAt(s, BlankLine, k) <==>
      k + 4 <= |s| && s[k] == '\r' && s[k + 1] == '\n' && s[k + 2] == '\r' && s[k + 3] == '\n'
  {
    if k + 4 <= |s| {
      assert s[k..k + 4] == [s[k], s[k + 1], s[k + 2], s[k + 3]];
    }
  }

  /** Text without CR or LF holds no CRLF. */
  lemma SingleLineNoCRLF(s: string)
    requires SingleLine(s)
    ensures NoOccurrence(s, CRLF)
  {
    forall k: nat
      ensures !OccursAt(s, CRLF, k)
    {
      CRLFAt(s, k);
    }
  }

  /** Lines joined by CRLF and followed by a blank line: when no line holds a
      CRLF and only the first may be empty, the first blank line is the one
      right after the lines. */
  lemma FirstBlankLine(lines: seq<string>, rest: string)
    requires |lines| > 0
    requires forall k :: 0 <= k < |lines| ==> NoOccurrence(lines[k], CRLF)
    requires forall k :: 0 < k < |lines| ==> lines[k] != ""
    ensures Find(Join(lines, CRLF) + BlankLine + rest, BlankLine, 0) == Some(|Join(lines, CRLF)|)
  {
    var s := Join(lines, CRLF) + BlankLine + rest;
    var g := |Join(lines, CRLF)|;
    assert s[g..g + 4] == BlankLine;
    forall j: nat | j < g
      ensures !OccursAt(s, BlankLine, j)
    {
      NoBlankBefore(lines, rest, j);
    }
    FindIs(s, BlankLine, 0, g);
  }

  lemma {:induction false} NoBlankBefore(lines: seq<string>, rest: string, j: nat)
    requires |lines| > 0
    requires forall k :: 0 <= k < |lines| ==> NoOccurrence(lines[k], CRLF)
    requires forall k :: 0 < k < |lines| ==> lines[k] != ""
    requires j < |Join(lines, CRLF)|
    ensures !OccursAt(Join(lines, CRLF) + BlankLine + rest, BlankLine, j)
    decreases |lines|
  {
    var l := lines[0];
    var s := Join(lines, CRLF) + BlankLine + rest;
    if |lines| == 1 {
      assert s == l + CRLF + (CRLF + rest);
      NoBlankInLine(l, CRLF + rest, j);
    } else {
      var t := Join(lines[1..], CRLF);
      var y := t + BlankLine + rest;
      assert s == l + CRLF + y;
      if j >= |l| + 2 {
        var j' := j - |l| - 2;
        NoBlankBefore(lines[1..], rest, j');
        BlankLineAt(y, j');
        BlankLineAt(s, j);
        assert s[j] == y[j'] && s[j + 1] == y[j' + 1];
      } else if j < |l| {
        NoBlankInLine(l, y, j);
      } else if j == |l| {
        var m := lines[1];
        var z := if |lines| == 2 then BlankLine + rest else CRLF + Join(lines[2..], CRLF) + BlankLine + rest;
        assert lines[1..][1..] == lines[2..];
        assert y == m + z;
        NextLineStarts(m, z);
        NoBlankAtBreak(l, y);
      } else {
        BlankLineAt(s, j);
        assert s[j] == '\n';
      }
    }
  }

  /** No blank line starts inside a line that holds no CRLF. */
  lemma NoBlankInLine(l: string, y: string, j: nat)
    requires NoOccurrence(l, CRLF) && j < |l|
    ensures !OccursAt(l + CRLF + y, BlankLine, j)
  {
    var s := l + CRLF + y;
    BlankLineAt(s, j);
    if j + 1 < |l| {
      CRLFAt(l, j);
      assert s[j] == l[j] && s[j + 1] == l[j + 1];
    } else {
      assert s[j + 1] == '\r';
    }
  }

  /** A non-empty line without CRLF, followed by a CRLF, does not begin with one. */
  lemma NextLineStarts(m: string, z: string)
    requires m != "" && NoOccurrence(m, CRLF) && StartsWith(z, CRLF)
    ensures !StartsWith(m + z, CRLF)
  {
    var y := m + z;
    CRLFAt(y, 0);
    if |m| >= 2 {
      CRLFAt(m, 0);
      assert y[0] == m[0] && y[1] == m[1];
    } else {
      CRLFAt(z, 0);
      assert y[1] == z[0];
    }
  }

  /** The CRLF that ends a line starts a blank line only when the next line
      is empty. */
  lemma NoBlankAtBreak(l: string, y: string)
    requires !StartsWith(y, CRLF)
    ensures !OccursAt(l + CRLF + y, BlankLine, |l|)
  {
    var s := l + CRLF + y;
    BlankLineAt(s, |l|);
    CRLFAt(y, 0);
    if |y| >= 2 {
      assert s[|l| + 2] == y[0] && s[|l| + 3] == y[1];
    }
  }

  /** `s.replace(pat, rep)`: every leftmost, non-overlapping occurrence. */
  function ReplaceAll(s: string, pat: string, rep: string): string
    requires pat != ""
    decreases |s|
  {
    match Find(s, pat, 0)
    case None => s
    case Some(i) => s[..i] + rep + ReplaceAll(s[i + |pat|..], pat, rep)
  }

  lemma ReplaceAllAbsent(s: string, pat: string, rep: string)
    requires pat != "" && NoOccurrence(s, pat)
    ensures ReplaceAll(s, pat, rep) == s
  {
    FindNone(s, pat);
  }

  /** No occurrence that starts before the middle part ends and ends after
      it starts, when the middle part shares no character with the pattern. */
  lemma MiddleBlocks(a: string, m: string, t: string, pat: string, j: nat)
    requires |m| > 0 && pat != ""
    requires forall c :: c in m ==> c !in pat
    requires j + |pat| > |a| && j < |a| + |m|
    ensures !OccursAt(a + m + t, pat, j)
  {
    var r := a + m + t;
    if j + |pat| <= |r| {
      var q := if j < |a| then |a| else j;
      assert |a| <= q < |a| + |m| && j <= q < j + |pat|;
      var c := r[q];
      assert c == m[q - |a|];
      assert r[j..j + |pat|][q - j] == c;
      assert pat[q - j] in pat && c !in pat;
    }
  }

  /** When the replacement is non-empty and shares no character with the
      pattern, no occurrence of the pattern survives the replacement. */
  lemma {:induction false} ReplaceAllRemoves(s: string, pat: string, rep: string)
    requires pat != "" && |rep| > 0
    requires forall c :: c in rep ==> c !in pat
    ensures NoOccurrence(ReplaceAll(s, pat, rep), pat)
    decreases |s|
  {
    match Find(s, pat, 0)
    case None =>
    case Some(i) =>
      var a := s[..i];
      var t := ReplaceAll(s[i + |pat|..], pat, rep);
      NoOccurrenceBefore(s, pat, i);
      ReplaceAllRemoves(s[i + |pat|..], pat, rep);
      NoOccurrenceAround(a, rep, t, pat);
  }

  /** A middle part sharing no character with the pattern, between two parts
      without it, makes no occurrence either. */
  lemma NoOccurrenceAround(a: string, m: string, t: string, pat: string)
    requires pat != "" && |m| > 0
    requires forall c :: c in m ==> c !in pat
    requires NoOccurrence(a, pat) && NoOccurrence(t, pat)
    ensures NoOccurrence(a + m + t, pat)
  {
    var r := a + m + t;
    forall j: nat
      ensures !OccursAt(r, pat, j)
    {
      if j + |pat| <= |a| {
        assert r[j..j + |pat|] == a[j..j + |pat|];
        assert !OccursAt(a, pat, j);
      } else if j >= |a| + |m| {
        var j' := j - |a| - |m|;
        if j + |pat| <= |r| {
          assert r[j..j + |pat|] == t[j'..j' + |pat|];
        }
        assert !OccursAt(t, pat, j');
      } else {
        MiddleBlocks(a, m, t, pat, j);
      }
    }
  }

  /** No CR and no LF: text that stays on one line of a message head. */
  predicate SingleLine(s: string) {
    forall i :: 0 <= i < |s| ==> s[i] != '\r' && s[i] != '\n'
  }

  predicate IsDigit(c: char) {
    '0' <= c <= '9'
  }

  /** `str.isdigit` restricted to ASCII digits; false on the empty string. */
  predicate IsDigits(s: string) {
    |s| > 0 && forall k :: 0 <= k < |s| ==> IsDigit(s[k])
  }

  /** `int(s)` for a string of decimal digits. */
  function ParseNat(s: string): nat
    requires forall k :: 0 <= k < |s| ==> IsDigit(s[k])
  {
    if |s| == 0 then 0
    else
      assert IsDigit(s[|s| - 1]);
      10 * ParseNat(s[..|s| - 1]) + ((s[|s| - 1] as int) - ('0' as int))
  }

  function DigitChar(d: nat): char
    requires d < 10
  {
    (('0' as int) + d) as char
  }

  /** `str(n)` for a non-negative integer. */
  function NatToString(n: nat): (r: string)
    ensures IsDigits(r)
  {
    if n < 10 then [DigitChar(n)] else NatToString(n / 10) + [DigitChar(n % 10)]
  }

  /** `int(str(n)) == n` */
  lemma {:induction false} ParseNatToString(n: nat)
    ensures ParseNat(NatToString(n)) == n
  {
    var s := NatToString(n);
    if n >= 10 {
      assert s[..|s| - 1] == NatToString(n / 10);
      ParseNatToString(n / 10);
    }
  }

  /** `str(n)` of a three-digit number. */
  lemma ThreeDigits(n: int)
    requires 100 <= n < 1000
    ensures IntToString(n) == [DigitChar(n / 100), DigitChar(n / 10 % 10), DigitChar(n % 10)]
  {
    var m := n / 10;
    assert 10 <= m < 100;
    assert m / 10 == n / 100;
    assert NatToString(m / 10) == [DigitChar(n / 100)];
    assert NatToString(m) == [DigitChar(n / 100), DigitChar(m % 10)];
  }

  /** `str(i)` for any integer. */
  function IntToString(i: int): (r: string)
    ensures |r| > 0
    ensures forall k :: 0 <= k < |r| ==> IsDigit(r[k]) || r[k] == '-'
  {
    if i < 0 then "-" + NatToString(-i) else NatToString(i)
  }

  function LowerChar(c: char): char {
    if 'A' <= c <= 'Z' then ((c as int) + 32) as char else c
  }

  /** `str.lower` on ASCII letters. */
  function Lower(s: string): (r: string)
    ensures |r| == |s|
  {
    seq(|s|, k requires 0 <= k < |s| => LowerChar(s[k]))
  }

  lemma LowerAppend(a: string, b: string)
    ensures Lower(a + b) == Lower(a) + Lower(b)
  {
  }

  /** Lower-casing leaves text without capitals as it is. */
  lemma NoCapitalsLower(s: string)
    requires forall k :: 0 <= k < |s| ==> !('A' <= s[k] <= 'Z')
    ensures Lower(s) == s
  {
  }

  lemma LowerSingleLine(s: string)
    requires SingleLine(s)
    ensures SingleLine(Lower(s))
  {
  }

  /** A dict built by a comprehension over `pairs`: later keys overwrite
      earlier ones. */
  function BuildMap<K, V>(pairs: seq<(K, V)>): (m: map<K, V>)
    ensures forall i :: 0 <= i < |pairs| ==> pairs[i].0 in m
    ensures forall k :: k in m ==> exists i :: 0 <= i < |pairs| && pairs[i].0 == k
  {
    if |pairs| == 0 then map[]
    else
      var init := pairs[..|pairs| - 1];
      assert forall i :: 0 <= i < |init| ==> init[i] == pairs[i];
      BuildMap(init)[pairs[|pairs| - 1].0 := pairs[|pairs| - 1].1]
  }

  /** The value stored for a key is the one from its last pair. */
  lemma {:induction false} BuildMapLastWins<K, V>(pairs: seq<(K, V)>, i: nat)
    requires i < |pairs|
    requires forall j :: i < j < |pairs| ==> pairs[j].0 != pairs[i].0
    ensures pairs[i].0 in BuildMap(pairs) && BuildMap(pairs)[pairs[i].0] == pairs[i].1
  {
    if i < |pairs| - 1 {
      BuildMapLastWins(pairs[..|pairs| - 1], i);
    }
  }
}
