/** path_util.h on the Xbox/Win32 build, where the preferred separator is
    '\\': in-place separator normalisation and the bounded, truncating join. */
module PathUtil {
  import opened CStrings

  /** DIR_SEP_CHAR on the Xbox/Win32 build. */
  const DirSep: char := '\\'

  /** Either separator: both are recognised on input. */
  predicate IsSep(c: char) {
    c == '/' || c == '\\'
  }

  /** No '/' anywhere: every separator is the platform's. */
  predicate NoSlash(s: string) {
    forall i :: 0 <= i < |s| ==> s[i] != '/'
  }

  /** What normalisation does to one character. */
  function NormalizeChar(c: char): char {
    if c == '/' then DirSep else c
  }

  /** The string `normalize_separators_inplace` leaves in the buffer: every
      '/' becomes '\\' and every other character (the terminator included)
      stays where it was. */
  function Normalize(s: string): (r: string)
    ensures |r| == |s|
    ensures forall i :: 0 <= i < |s| ==> r[i] == NormalizeChar(s[i])
  {
    if s == [] then [] else [NormalizeChar(s[0])] + Normalize(s[1..])
  }

  /** Normalisation leaves no '/' and adds no terminator. */
  lemma NormalizeClean(s: string)
    ensures NoSlash(Normalize(s))
    ensures NoNul(s) ==> NoNul(Normalize(s))
  {
    var r := Normalize(s);
    if NoNul(s) {
      forall i | 0 <= i < |r|
        ensures r[i] != NUL
      {
        assert s[i] in s;
      }
    }
  }

  /** Normalising twice is normalising once. */
  lemma NormalizeIdempotent(s: string)
    ensures Normalize(Normalize(s)) == Normalize(s)
  {
  }

  /** A string without '/' is already normalised. */
  lemma NormalizeKeeps(s: string)
    requires forall i :: 0 <= i < |s| ==> s[i] != '/'
    ensures Normalize(s) == s
  {
  }

  /** Normalisation works character by character, so it commutes with
      concatenation and truncation. */
  lemma NormalizeAppend(a: string, b: string)
    ensures Normalize(a + b) == Normalize(a) + Normalize(b)
  {
  }

  lemma NormalizeTake(s: string, n: nat)
    ensures Normalize(Take(s, n)) == Take(Normalize(s), n)
  {
  }

  /** `s` with all its leading '/' and '\\' dropped. */
  function StripLeadingSeps(s: string): (r: string)
    ensures |r| <= |s|
    ensures forall i :: 0 <= i < |s| - |r| ==> IsSep(s[i])
    ensures NoNul(s) ==> NoNul(r)
    ensures r == [] || !IsSep(r[0])
  {
    if s != [] && IsSep(s[0]) then StripLeadingSeps(s[1..]) else s
  }

  /** The suffix left once a loop has skipped `i` leading separators. */
  lemma {:induction false} StripLeadingSepsAt(s: string, i: nat)
    requires i <= |s|
    requires forall k :: 0 <= k < i ==> IsSep(s[k])
    requires i == |s| || !IsSep(s[i])
    ensures StripLeadingSeps(s) == s[i..]
  {
    if i > 0 {
      StripLeadingSepsAt(s[1..], i - 1);
      assert s[1..][i - 1..] == s[i..];
    }
  }

  /** The separator `join_path` inserts after a non-empty base that does not
      already end in one. */
  function SepAfter(base: string): (r: string)
    ensures r == [] || r == [DirSep]
  {
    if |base| > 0 && !IsSep(base[|base| - 1]) then [DirSep] else []
  }

  /** The unbounded join: base, one separator where needed, the leaf without
      its leading separators, all normalised. */
  function JoinedPath(base: string, leaf: string): (r: string)
    ensures |r| == |base| + |SepAfter(base)| + |StripLeadingSeps(leaf)|
  {
    Normalize(base + SepAfter(base) + StripLeadingSeps(leaf))
  }

  /** A joined path has no '/', and no terminator when its parts have none. */
  lemma JoinedPathClean(base: string, leaf: string)
    ensures NoSlash(JoinedPath(base, leaf))
    ensures NoNul(base) && NoNul(leaf) ==> NoNul(JoinedPath(base, leaf))
  {
    var t := base + SepAfter(base) + StripLeadingSeps(leaf);
    if NoNul(base) && NoNul(leaf) {
      forall i | 0 <= i < |t|
        ensures t[i] != NUL
      {
        if i < |base| {
          assert t[i] == base[i];
        } else if i >= |base| + |SepAfter(base)| {
          assert t[i] in StripLeadingSeps(leaf);
        }
      }
    }
    NormalizeClean(t);
  }

  /** normalize_separators_inplace: every '/' before the terminator becomes
      '\\'; the terminator and everything after it stay as they were. NULL is
      a no-op. */
  method NormalizeSeparatorsInPlace(s: array?<char>)
    requires s != null ==> NUL in s[..]
    modifies s
    ensures s != null ==>
              var n := Strlen(old(s[..]));
              s[..n] == Normalize(old(s[..n])) && s[n..] == old(s[n..])
  {
    if s == null {
      return;
    }
    ghost var n := Strlen(s[..]);
    var i := 0;
    while s[i] != NUL
      invariant i <= n
      invariant forall k :: 0 <= k < i ==> s[k] == NormalizeChar(old(s[k]))
      invariant forall k :: i <= k < s.Length ==> s[k] == old(s[k])
      decreases n - i
    {
      if s[i] == '/' {
        s[i] := DirSep;
      }
      i := i + 1;
    }
  }

  /** A buffer holding `t` holds `Normalize(t)` after normalisation. */
  lemma NormalizedHolds(before: seq<char>, after: seq<char>, t: string)
    requires NoNul(t) && Holds(before, t)
    requires |after| == |before|
    requires after[..|t|] == Normalize(before[..|t|]) && after[|t|..] == before[|t|..]
    ensures Holds(after, Normalize(t)) && NoNul(Normalize(t))
  {
    assert after[|t|] == after[|t|..][0];
  }

  /** Normalising a buffer that holds `t`: it then holds `Normalize(t)`, and
      nothing after the terminator changes. */
  method NormalizeHeld(out: array<char>, ghost t: string, ghost u: string)
    requires NoNul(t) && Holds(out[..], t) && u == Normalize(t)
    modifies out
    ensures Holds(out[..], u) && NoNul(u)
    ensures forall j :: |t| < j < out.Length ==> out[j] == old(out[j])
  {
    ghost var before := out[..];
    HoldsDeterminesString(before, t);
    NormalizeSeparatorsInPlace(out);
    NormalizedHolds(before, out[..], t);
    forall j | |t| < j < out.Length
      ensures out[j] == before[j]
    {
      assert out[j] == out[|t|..][j - |t|];
    }
  }

  /** The base half of `join_path`: copy as much of a non-empty base as
      fits, terminate, then add the separator if the base does not end in one
      and there is still room. */
  method JoinBase(out: array<char>, outsz: nat, base: Option<string>) returns (n: nat)
    requires base.Some? ==> NoNul(base.value)
    requires 0 < outsz <= out.Length
    modifies out
    ensures var p := Take(base.GetOr("") + SepAfter(base.GetOr("")), outsz - 1);
            n == |p| && NoNul(p) && Holds(out[..], p)
    ensures forall j :: n < j < out.Length ==> out[j] == old(out[j])
  {
    ghost var b := base.GetOr("");
    ghost var p := Take(b + SepAfter(b), outsz - 1);
    out[0] := NUL;
    n := 0;
    if base.Some? && |base.value| > 0 {
      var s := base.value;
      n := CopyBounded(out, outsz, s);
      if n > 0 && out[n - 1] != '/' && out[n - 1] != '\\' {
        if n + 1 < outsz {
          out[n] := DirSep;
          n := n + 1;
          out[n] := NUL;
          assert out[..n] == s + [DirSep];
        }
      }
    }
  }

  /** The base copy of `join_path`: copy while a character and the
      terminator still fit, then terminate. */
  method CopyBounded(out: array<char>, outsz: nat, s: string) returns (n: nat)
    requires NoNul(s) && 0 < outsz <= out.Length
    modifies out
    ensures n == |Take(s, outsz - 1)| && Holds(out[..], Take(s, outsz - 1))
    ensures forall j :: n < j < out.Length ==> out[j] == old(out[j])
  {
    n := 0;
    while n < |s| && n + 1 < outsz
      invariant n <= |s| && n < outsz
      invariant forall m :: 0 <= m < n ==> out[m] == s[m]
      invariant forall j :: n < j < out.Length ==> out[j] == old(out[j])
    {
      out[n] := s[n];
      n := n + 1;
    }
    out[n] := NUL;
    assert out[..n] == s[..n];
    assert Take(s, outsz - 1) == s[..n];
  }

  /** The leaf half of `join_path`: skip the leaf's leading separators, find
      the end of what the buffer holds, and append as much of the rest as
      fits. */
  method JoinLeaf(out: array<char>, outsz: nat, ghost p: string, leaf: Option<string>)
    requires leaf.Some? ==> NoNul(leaf.value)
    requires outsz <= out.Length && |p| < outsz
    requires NoNul(p) && Holds(out[..], p)
    modifies out
    ensures var r := p + Take(StripLeadingSeps(leaf.GetOr("")), outsz - 1 - |p|);
            Holds(out[..], r) && forall j :: |r| < j < out.Length ==> out[j] == old(out[j])
  {
    if leaf.Some? && |leaf.value| > 0 {
      var lf := leaf.value;
      var i := SkipLeadingSeps(lf);
      AppendBounded(out, outsz, p, lf[i..]);
    } else {
      assert Take(StripLeadingSeps(leaf.GetOr("")), outsz - 1 - |p|) == [];
    }
  }

  /** The copy loop of `join_path`: find the end of what the buffer holds,
      append `rest` while a character and the terminator still fit, and
      terminate. */
  method AppendBounded(out: array<char>, outsz: nat, ghost p: string, rest: string)
    requires outsz <= out.Length && |p| < outsz
    requires NoNul(p) && Holds(out[..], p)
    modifies out
    ensures var r := p + Take(rest, outsz - 1 - |p|);
            Holds(out[..], r) && forall j :: |r| < j < out.Length ==> out[j] == old(out[j])
  {
    HoldsDeterminesString(out[..], p);
    var n := StrlenOf(out);
    var k := CopyAt(out, outsz, n, rest);
    TakeIsPrefix(rest, outsz - 1 - |p|, k);
    HoldsConcat(out[..], p, rest[..k]);
  }

  /** The copy loop of the leaf half: characters of `rest` go in from
      position `start` while one more still leaves room for the terminator,
      then the terminator follows them. */
  method CopyAt(out: array<char>, outsz: nat, start: nat, rest: string) returns (k: nat)
    requires start < outsz <= out.Length
    modifies out
    ensures k <= |rest| && start + k < outsz && (k == |rest| || start + k + 1 == outsz)
    ensures out[start + k] == NUL
    ensures forall m :: 0 <= m < start ==> out[m] == old(out[m])
    ensures forall m :: 0 <= m < k ==> out[start + m] == rest[m]
    ensures forall j :: start + k < j < out.Length ==> out[j] == old(out[j])
  {
    var n := start;
    k := 0;
    while k < |rest| && n + 1 < outsz
      invariant k <= |rest| && n == start + k && n < outsz
      invariant forall m :: 0 <= m < start ==> out[m] == old(out[m])
      invariant forall m :: 0 <= m < k ==> out[start + m] == rest[m]
      invariant forall j :: n < j < out.Length ==> out[j] == old(out[j])
    {
      out[n] := rest[k];
      n := n + 1;
      k := k + 1;
    }
    out[n] := NUL;
  }

  /** A prefix that stopped at the end of `s` or at `m` characters is the
      truncation to `m`. */
  lemma TakeIsPrefix(s: string, m: nat, k: nat)
    requires k <= |s| && k <= m && (k == |s| || k == m)
    ensures Take(s, m) == s[..k]
  {
  }

  /** A buffer whose characters are `p`, then `q`, then a terminator, holds
      `p + q`. */
  lemma HoldsConcat(buf: seq<char>, p: string, q: string)
    requires |p| + |q| < |buf| && buf[|p| + |q|] == NUL
    requires forall m :: 0 <= m < |p| ==> buf[m] == p[m]
    requires forall m :: 0 <= m < |q| ==> buf[|p| + m] == q[m]
    ensures Holds(buf, p + q)
  {
    assert buf[..|p| + |q|] == p + q;
  }

  /** The loop of `join_path` that steps `leaf` past its leading separators. */
  method SkipLeadingSeps(lf: string) returns (i: nat)
    ensures i <= |lf| && lf[i..] == StripLeadingSeps(lf)
  {
    i := 0;
    while i < |lf| && (lf[i] == '/' || lf[i] == '\\')
      invariant i <= |lf|
      invariant forall k :: 0 <= k < i ==> IsSep(lf[k])
    {
      i := i + 1;
    }
    StripLeadingSepsAt(lf, i);
  }

  /** What `join_path` has written before its final normalisation: base,
      separator and stripped leaf, truncated to `outsz - 1` characters. */
  ghost function RawJoin(base: string, leaf: string, outsz: nat): string
    requires outsz > 0
  {
    Take(base + SepAfter(base) + StripLeadingSeps(leaf), outsz - 1)
  }

  /** Normalising the truncated raw join is truncating the normalised join. */
  lemma NormalizeRawJoin(base: string, leaf: string, outsz: nat)
    requires outsz > 0
    ensures Normalize(RawJoin(base, leaf, outsz)) == Take(JoinedPath(base, leaf), outsz - 1)
  {
    NormalizeTake(base + SepAfter(base) + StripLeadingSeps(leaf), outsz - 1);
  }

  /** The raw join is what the base half writes followed by what the leaf
      half still has room for. */
  lemma RawJoinSplit(base: string, leaf: string, outsz: nat)
    requires outsz > 0
    ensures var p := Take(base + SepAfter(base), outsz - 1);
            RawJoin(base, leaf, outsz) == p + Take(StripLeadingSeps(leaf), outsz - 1 - |p|)
  {
    TakeAppend(base + SepAfter(base), StripLeadingSeps(leaf), outsz - 1);
  }

  /** Both halves of `join_path` before normalisation. */
  method JoinRaw(out: array<char>, outsz: nat, base: Option<string>, leaf: Option<string>)
    requires base.Some? ==> NoNul(base.value)
    requires leaf.Some? ==> NoNul(leaf.value)
    requires 0 < outsz <= out.Length
    modifies out
    ensures var q := RawJoin(base.GetOr(""), leaf.GetOr(""), outsz);
            NoNul(q) && Holds(out[..], q) && forall j :: |q| < j < out.Length ==> out[j] == old(out[j])
  {
    ghost var b, l := base.GetOr(""), leaf.GetOr("");
    ghost var p := Take(b + SepAfter(b), outsz - 1);
    RawJoinSplit(b, l, outsz);
    var n := JoinBase(out, outsz, base);
    JoinLeaf(out, outsz, p, leaf);
  }

  /** join_path(out, outsz, base, leaf): with NULL `out` or `outsz == 0`
      nothing is written; otherwise `out` holds the unbounded join truncated
      to `outsz - 1` characters, and nothing past its terminator (in
      particular nothing at an index >= outsz) is touched. */
  method JoinPath(out: array?<char>, outsz: nat, base: Option<string>, leaf: Option<string>)
    requires base.Some? ==> NoNul(base.value)
    requires leaf.Some? ==> NoNul(leaf.value)
    requires out != null ==> outsz <= out.Length
    modifies out
    ensures out != null && outsz == 0 ==> out[..] == old(out[..])
    ensures out != null && outsz > 0 ==>
              var r := Take(JoinedPath(base.GetOr(""), leaf.GetOr("")), outsz - 1);
              Holds(out[..], r) && forall j :: |r| < j < out.Length ==> out[j] == old(out[j])
  {
    if out == null || outsz == 0 {
      return;
    }
    ghost var b, l := base.GetOr(""), leaf.GetOr("");
    JoinRaw(out, outsz, base, leaf);
    NormalizeRawJoin(b, l, outsz);
    NormalizeHeld(out, RawJoin(b, l, outsz), Take(JoinedPath(b, l), outsz - 1));
  }

  /** When the whole join fits, nothing is lost: the buffer holds base, one
      separator where needed and the stripped leaf, normalised. */
  lemma JoinFits(base: string, leaf: string, outsz: nat)
    requires |base| + |SepAfter(base)| + |StripLeadingSeps(leaf)| < outsz
    ensures Take(JoinedPath(base, leaf), outsz - 1)
         == Normalize(base) + Normalize(SepAfter(base)) + Normalize(StripLeadingSeps(leaf))
  {
    NormalizeAppend(base + SepAfter(base), StripLeadingSeps(leaf));
    NormalizeAppend(base, SepAfter(base));
  }

  /** With a NULL or empty base the result is the normalised, stripped leaf,
      truncated. */
  lemma JoinEmptyBase(leaf: string, outsz: nat)
    requires outsz > 0
    ensures Take(JoinedPath("", leaf), outsz - 1) == Take(Normalize(StripLeadingSeps(leaf)), outsz - 1)
  {
    assert SepAfter("") == [];
    assert "" + [] + StripLeadingSeps(leaf) == StripLeadingSeps(leaf);
  }

  /** A normalised base that does not end in a separator, joined with a
      leaf that does not start with one: base, one separator, the
      normalised leaf. */
  lemma JoinPlain(base: string, leaf: string)
    requires |base| > 0 && !IsSep(base[|base| - 1]) && Normalize(base) == base
    requires leaf != [] && !IsSep(leaf[0])
    ensures JoinedPath(base, leaf) == base + [DirSep] + Normalize(leaf)
  {
    StripLeadingSepsAt(leaf, 0);
    assert leaf[0..] == leaf;
    NormalizeAppend(base + [DirSep], leaf);
    NormalizeAppend(base, [DirSep]);
    NormalizeKeeps([DirSep]);
  }

  /** At the seam between base and leaf there is exactly one separator when
      the base does not end in one, and the leaf never adds a second. */
  lemma JoinSeam(base: string, leaf: string)
    requires NoNul(base) && |base| > 0 && !IsSep(base[|base| - 1])
    requires StripLeadingSeps(leaf) != []
    ensures var j := JoinedPath(base, leaf);
            |j| > |base| + 1 && j[|base|] == DirSep && !IsSep(j[|base| + 1])
  {
    var x := base + [DirSep] + StripLeadingSeps(leaf);
    assert x[|base|] == DirSep;
    assert x[|base| + 1] == StripLeadingSeps(leaf)[0];
  }
}
