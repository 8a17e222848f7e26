/** The wildcard matcher of f_findfirst, on zero-terminated single-byte strings. */
module Wildcard {
  import opened Bytes

  /** The code page 437 up-case table from 0x80 on; from 0xA5 on it is the identity. */
  const EX_CVT: seq<Byte> := [
    0x80, 0x9A, 0x45, 0x41, 0x8E, 0x41, 0x8F, 0x80, 0x45, 0x45, 0x45, 0x49, 0x49, 0x49, 0x8E, 0x8F,
    0x90, 0x92, 0x92, 0x4F, 0x99, 0x4F, 0x55, 0x55, 0x59, 0x99, 0x9A, 0x9B, 0x9C, 0x9D, 0x9E, 0x9F,
    0x41, 0x49, 0x4F, 0x55, 0xA5]

  /** The up-case form of a character, as get_achar gives it. */
  function UpCase(c: Byte): (u: Byte)
    ensures u == 0 <==> c == 0
  {
    if 0x61 <= c <= 0x7A then c - 0x20 else if 0x80 <= c < 0xA5 then EX_CVT[c - 0x80] else c
  }

  predicate IsLetter(c: Byte) {
    'A' as int <= c <= 'Z' as int || 'a' as int <= c <= 'z' as int
  }

  /** Among the ASCII characters exactly the two forms of a letter are alike, and all but small letters stay. No
      character has to be converted twice. */
  lemma UpCaseOfAscii(c: Byte, d: Byte)
    ensures c < 0x80 && d < 0x80 ==>
      (UpCase(c) == UpCase(d) <==> c == d || (IsLetter(c) && IsLetter(d) && (c - d == 32 || d - c == 32)))
    ensures c < 0x80 && !('a' as int <= c <= 'z' as int) ==> UpCase(c) == c
    ensures c >= 0xA5 ==> UpCase(c) == c
    ensures UpCase(UpCase(c)) == UpCase(c)
  {
  }

  /** The character at place i of a string; zero at its end. */
  function Char(s: seq<Byte>, i: nat): Byte
    requires i <= |s|
  {
    if i < |s| then s[i] else 0
  }

  /** A string: no character is the terminator. */
  predicate IsString(s: seq<Byte>) {
    forall i :: 0 <= i < |s| ==> s[i] != 0
  }

  predicate IsWild(c: Byte) {
    c == '?' as int || c == '*' as int
  }

  /** The pattern matches the whole name: '?' is any one character, '*' any run, all else itself but for case. */
  ghost predicate Glob(p: seq<Byte>, n: seq<Byte>)
    decreases |p|
  {
    if p == [] then n == []
    else if p[0] == '*' as int then exists k :: 0 <= k <= |n| && Glob(p[1..], n[k..])
    else n != [] && (p[0] == '?' as int || UpCase(p[0]) == UpCase(n[0])) && Glob(p[1..], n[1..])
  }

  /** Without wildcards a pattern matches the names that are the same but for case. */
  lemma {:induction false} LiteralPattern(p: seq<Byte>, n: seq<Byte>)
    requires forall i :: 0 <= i < |p| ==> !IsWild(p[i])
    ensures Glob(p, n) <==> |p| == |n| && forall i :: 0 <= i < |p| ==> UpCase(p[i]) == UpCase(n[i])
    decreases |p|
  {
    if p != [] && n != [] {
      var q, m := p[1..], n[1..];
      LiteralPattern(q, m);
      if |p| == |n| {
        assert forall i :: 1 <= i < |p| ==> p[i] == q[i - 1] && n[i] == m[i - 1];
        assert forall i :: 0 <= i < |q| ==> q[i] == p[i + 1] && m[i] == n[i + 1];
      }
    }
  }

  /** A star in front lets anything stand in front of what is matched, a question mark exactly one character. */
  lemma WildPattern(p: seq<Byte>, n: seq<Byte>, m: seq<Byte>, c: Byte)
    ensures Glob(p, n) ==> Glob(['*' as int] + p, m + n)
    ensures Glob(['?' as int] + p, [c] + n) <==> Glob(p, n)
    ensures !Glob(['?' as int] + p, []) && Glob(['*' as int], m) && (Glob([], m) <==> m == [])
  {
    var star, mark: seq<Byte> := ['*' as int] + p, ['?' as int] + p;
    assert star[1..] == p && mark[1..] == p && ([c] + n)[1..] == n && (m + n)[|m|..] == n;
    var only: seq<Byte> := ['*' as int];
    assert only[1..] == [] && m[|m|..] == [] && Glob([], []);
  }

  /** The pattern matches the name from some place on, exactly at skip or, if inf, at skip or later. */
  ghost predicate GlobAfter(p: seq<Byte>, n: seq<Byte>, skip: nat, inf: bool) {
    exists k :: skip <= k <= |n| && (inf || k == skip) && Glob(p, n[k..])
  }

  /** The counts for a block of wildcards: its question marks and whether it has a star. */
  function Marks(block: seq<Byte>): nat {
    if block == [] then 0 else (if block[0] == '?' as int then 1 else 0) + Marks(block[1..])
  }

  lemma {:induction false} MarksAppend(block: seq<Byte>, c: Byte)
    ensures Marks(block + [c]) == Marks(block) + if c == '?' as int then 1 else 0
  {
    if block != [] {
      assert (block + [c])[1..] == block[1..] + [c];
      MarksAppend(block[1..], c);
    }
  }

  lemma GlobShift(p: seq<Byte>, n: seq<Byte>, d: nat, skip: nat, inf: bool)
    requires d <= |n|
    ensures GlobAfter(p, n[d..], skip, inf) <==> GlobAfter(p, n, d + skip, inf)
  {
    if k :| skip <= k <= |n| - d && (inf || k == skip) && Glob(p, n[d..][k..]) {
      assert n[d..][k..] == n[d + k..];
    }
    if k :| d + skip <= k <= |n| && (inf || k == d + skip) && Glob(p, n[k..]) {
      assert n[d..][k - d..] == n[k..];
    }
  }

  /** Grouping a block of wildcards into a count and a flag loses no match and adds none. */
  lemma {:induction false} BlockGrouped(block: seq<Byte>, p: seq<Byte>, n: seq<Byte>)
    requires forall i :: 0 <= i < |block| ==> IsWild(block[i])
    ensures Glob(block + p, n) <==> GlobAfter(p, n, Marks(block), '*' as int in block)
    decreases |block|
  {
    if block == [] {
      assert block + p == p && n[0..] == n;
    } else {
      var rest := block[1..];
      assert (block + p)[1..] == rest + p;
      assert block == [block[0]] + rest;
      var m, star := Marks(rest), '*' as int in rest;
      if block[0] == '?' as int {
        if n != [] {
          BlockGrouped(rest, p, n[1..]);
          GlobShift(p, n, 1, m, star);
        }
      } else {
        forall k | 0 <= k <= |n|
          ensures Glob(rest + p, n[k..]) <==> GlobAfter(p, n, k + m, star)
        {
          BlockGrouped(rest, p, n[k..]);
          GlobShift(p, n, k, m, star);
        }
        assert GlobAfter(p, n, m, true) ==> exists k :: 0 <= k <= |n| && Glob(rest + p, n[k..]) by {
          if j :| m <= j <= |n| && Glob(p, n[j..]) {
            assert GlobAfter(p, n, (j - m) + m, star);
            assert Glob(rest + p, n[j - m..]);
          }
        }
      }
    }
  }

  /** A literal prefix of j characters fits the name from k on. */
  ghost predicate Fits(p: seq<Byte>, n: seq<Byte>, k: nat, j: nat) {
    && j <= |p| && k + j <= |n|
    && forall i :: 0 <= i < j ==> !IsWild(p[i]) && UpCase(p[i]) == UpCase(n[k + i])
  }

  lemma {:induction false} GlobPastPrefix(p: seq<Byte>, n: seq<Byte>, k: nat, j: nat)
    requires Fits(p, n, k, j)
    ensures Glob(p, n[k..]) <==> Glob(p[j..], n[k + j..])
    decreases j
  {
    if j == 0 {
      assert p[0..] == p;
    } else {
      GlobPastPrefix(p, n, k, j - 1);
      var p', n' := p[j - 1..], n[k + j - 1..];
      assert p'[0] == p[j - 1] && n'[0] == n[k + (j - 1)];
      assert p'[1..] == p[j..] && n'[1..] == n[k + j..];
    }
  }

  /** A literal prefix needs as many characters of the name. */
  lemma {:induction false} GlobLength(p: seq<Byte>, j: nat, n: seq<Byte>)
    requires j <= |p| && (forall i :: 0 <= i < j ==> !IsWild(p[i])) && Glob(p, n)
    ensures |n| >= j
    decreases j
  {
    if j > 0 {
      GlobLength(p[1..], j - 1, n[1..]);
    }
  }

  /** Once the literal prefix has used up the name, no later start can match. */
  lemma NoLaterStart(p: seq<Byte>, n: seq<Byte>, k: nat, j: nat)
    requires Fits(p, n, k, j) && k + j == |n|
    ensures forall l :: k < l <= |n| ==> !Glob(p, n[l..])
  {
    forall l | k < l <= |n|
      ensures !Glob(p, n[l..])
    {
      if Glob(p, n[l..]) {
        GlobLength(p, j, n[l..]);
      }
    }
  }

  /** Reads the block of wildcards at pp. */
  method ScanBlock(pat: seq<Byte>, pp: nat) returns (end: nat, nm: nat, nx: bool)
    requires pp < |pat| && IsString(pat) && IsWild(pat[pp])
    ensures pp < end <= |pat|
    ensures forall i :: pp <= i < end ==> IsWild(pat[i])
    ensures nm == Marks(pat[pp..end]) && (nx <==> '*' as int in pat[pp..end])
  {
    end, nm, nx := pp, 0, false;
    while true
      invariant pp <= end < |pat| && IsWild(pat[end])
      invariant forall i :: pp <= i < end ==> IsWild(pat[i])
      invariant nm == Marks(pat[pp..end]) && (nx <==> '*' as int in pat[pp..end])
      decreases |pat| - end
    {
      MarksAppend(pat[pp..end], pat[end]);
      assert pat[pp..end + 1] == pat[pp..end] + [pat[end]];
      if pat[end] == '?' as int {
        nm := nm + 1;
      } else {
        nx := true;
      }
      end := end + 1;
      if !IsWild(Char(pat, end)) { break; }
    }
  }

  /** One branch: the pattern against the name from k on. last is the name character the branch ended at. */
  method TryFrom(pat: seq<Byte>, nam: seq<Byte>, k: nat) returns (matched: bool, last: Byte)
    requires IsString(pat) && IsString(nam) && k <= |nam|
    ensures matched <==> Glob(pat, nam[k..])
    ensures !matched && last == 0 ==> forall l :: k < l <= |nam| ==> !Glob(pat, nam[l..])
    ensures !matched && last != 0 ==> k < |nam|
    decreases |pat|, 0
  {
    hide GlobAfter, Marks, UpCase;
    var pp, np := 0, k;
    while true
      invariant 0 <= pp <= |pat| && k <= np <= |nam| && np - k == pp
      invariant Fits(pat, nam, k, pp)
      decreases |pat| - pp
    {
      GlobPastPrefix(pat, nam, k, pp);
      if np == |nam| { NoLaterStart(pat, nam, k, pp); }
      if IsWild(Char(pat, pp)) {
        var end, nm, nx := ScanBlock(pat, pp);
        matched := PatternMatching(pat[end..], nam[np..], nm, nx);
        assert pat[pp..] == pat[pp..end] + pat[end..];
        BlockGrouped(pat[pp..end], pat[end..], nam[np..]);
        last := Char(nam, np);
        return;
      }
      var pc, nc := UpCase(Char(pat, pp)), UpCase(Char(nam, np));
      if pc != nc { return false, nc; }
      if pc == 0 { return true, nc; }
      pp, np := pp + 1, np + 1;
    }
  }

  /** pattern_matching: the name from skip on against the pattern, and from every later place if inf. */
  method PatternMatching(pat: seq<Byte>, nam: seq<Byte>, skip: nat, inf: bool) returns (matched: bool)
    requires IsString(pat) && IsString(nam)
    ensures matched <==> GlobAfter(pat, nam, skip, inf)
    decreases |pat|, 1
  {
    var k := 0;
    while k < skip
      invariant k <= skip && k <= |nam|
    {
      if UpCase(Char(nam, k)) == 0 { return false; }
      k := k + 1;
    }
    if pat == [] && inf {
      assert nam[|nam|..] == [];
      return true;
    }
    while true
      invariant skip <= k <= |nam| && (inf || k == skip)
      invariant forall l :: skip <= l < k ==> !Glob(pat, nam[l..])
      decreases |nam| - k
    {
      var last;
      matched, last := TryFrom(pat, nam, k);
      if matched { return true; }
      if !(inf && last != 0) { return false; }
      k := k + 1;
    }
  }

  /** With no characters to skip and no pending star, pattern_matching decides the glob relation. */
  lemma WholeName(pat: seq<Byte>, nam: seq<Byte>)
    ensures GlobAfter(pat, nam, 0, false) <==> Glob(pat, nam)
  {
    assert nam[0..] == nam;
  }
}
