/** C strings as NUL-terminated character buffers, and the bounded copies
    (`strncpy`, `x_snprintf`) the core files fill them with. */
module CStrings {

  /** A `const char*` argument: NULL or a pointer to a C string. */
  datatype Option<T> = None | Some(value: T) {
    function GetOr(default: T): T {
      match this
      case Some(v) => v
      case None => default
    }
  }

  const NUL: char := '\0'

  /** The characters of a C string never include its terminator. */
  predicate NoNul(s: string) {
    NUL !in s
  }

  /** `buf` holds the C string `s`: its characters, then a terminator. */
  ghost predicate Holds(buf: seq<char>, s: string) {
    |s| < |buf| && buf[..|s|] == s && buf[|s|] == NUL
  }

  /** strlen: the index of the first terminator. */
  function Strlen(buf: seq<char>): (n: nat)
    requires NUL in buf
    ensures n < |buf| && buf[n] == NUL
    ensures NUL !in buf[..n]
  {
    if buf[0] == NUL then 0
    else
      var m := Strlen(buf[1..]);
      assert buf[..m + 1] == [buf[0]] + buf[1..][..m];
      m + 1
  }

  /** The C string a terminated buffer holds. */
  function CStr(buf: seq<char>): (s: string)
    requires NUL in buf
    ensures NoNul(s) && Holds(buf, s)
  {
    buf[..Strlen(buf)]
  }

  /** A buffer holds exactly one C string: the one before its first terminator. */
  lemma HoldsDeterminesString(buf: seq<char>, s: string)
    requires NoNul(s) && Holds(buf, s)
    ensures NUL in buf && Strlen(buf) == |s| && CStr(buf) == s
  {
    assert buf[|s|] == NUL;
  }

  /** The first `n` characters of `s`, or all of `s` when it is shorter. */
  function Take(s: string, n: nat): (r: string)
    ensures |r| <= n && |r| <= |s|
    ensures |r| == n || |r| == |s|
    ensures r == s[..|r|]
  {
    if |s| <= n then s else s[..n]
  }

  /** Truncation keeps out whatever the string keeps out. */
  lemma TakeExcludes(s: string, n: nat, c: char)
    ensures c !in s ==> c !in Take(s, n)
  {
    var r := Take(s, n);
    assert forall i :: 0 <= i < |r| ==> r[i] == s[i];
  }

  /** Truncating an already truncated string to a longer bound changes nothing. */
  lemma TakeTake(s: string, n: nat, m: nat)
    requires n <= m
    ensures Take(Take(s, n), m) == Take(s, n)
  {
  }

  /** Copying a truncated prefix and then as much of the rest as still fits
      is the same as truncating the concatenation. */
  lemma TakeAppend(x: string, y: string, m: nat)
    requires |Take(x, m)| == |x| || |Take(x, m)| == m
    ensures Take(x, m) + Take(y, m - |Take(x, m)|) == Take(x + y, m)
  {
    if |x| >= m {
      assert Take(y, 0) == [];
      assert (x + y)[..m] == x[..m];
    } else {
      var k := |Take(y, m - |x|)|;
      assert (x + y)[..|x| + k] == x + y[..k];
    }
  }

  /** strlen as the loop C writes: count characters up to the terminator. */
  method StrlenOf(buf: array<char>) returns (n: nat)
    requires NUL in buf[..]
    ensures n == Strlen(buf[..])
  {
    ghost var len := Strlen(buf[..]);
    n := 0;
    while buf[n] != NUL
      invariant n <= len
      invariant NUL !in buf[..n]
      decreases len - n
    {
      assert buf[..n + 1] == buf[..n] + [buf[n]];
      n := n + 1;
    }
  }

  /** The string a terminated buffer holds, read with strlen. */
  method StringOf(buf: array<char>) returns (s: string)
    requires NUL in buf[..]
    ensures NoNul(s) && Holds(buf[..], s)
  {
    var n := StrlenOf(buf);
    s := buf[..n];
  }

  /** `s` followed by terminators up to `len` characters: the field strncpy
      leaves behind. */
  function Padded(s: string, len: nat): (r: seq<char>)
    requires |s| <= len
    ensures |r| == len && r[..|s|] == s
    ensures forall i :: |s| <= i < len ==> r[i] == NUL
  {
    s + seq(len - |s|, _ => NUL)
  }

  /** A padded field shorter than its length holds the string it pads. */
  lemma PaddedHolds(s: string, len: nat)
    requires |s| < len
    ensures Holds(Padded(s, len), s)
  {
  }

  /** strncpy(dst, src, n): copy `src` up to `n` characters, then fill the
      rest of the first `n` with terminators. Nothing at or beyond `n` is
      written, and no terminator is added when `src` is `n` or longer. */
  method StrNCpy(dst: array<char>, src: string, n: nat)
    requires NoNul(src) && n <= dst.Length
    modifies dst
    ensures dst[..n] == Padded(Take(src, n), n)
    ensures forall j :: n <= j < dst.Length ==> dst[j] == old(dst[j])
  {
    var i := 0;
    while i < n && i < |src|
      invariant i <= n && i <= |src|
      invariant forall k :: 0 <= k < i ==> dst[k] == src[k]
      invariant forall j :: i <= j < dst.Length ==> dst[j] == old(dst[j])
    {
      dst[i] := src[i];
      i := i + 1;
    }
    ghost var m := i;
    while i < n
      invariant m <= i <= n
      invariant forall k :: 0 <= k < m ==> dst[k] == src[k]
      invariant forall k :: m <= k < i ==> dst[k] == NUL
      invariant forall j :: i <= j < dst.Length ==> dst[j] == old(dst[j])
    {
      dst[i] := NUL;
      i := i + 1;
    }
  }

  /** `strncpy(dst, src, n - 1); dst[n - 1] = '\0';`: the first `n`
      characters hold `src` cut to `n - 1` characters, padded with
      terminators; nothing beyond them is written. */
  method StrNCpyTerminated(dst: array<char>, src: string, n: nat)
    requires NoNul(src) && 1 <= n <= dst.Length
    modifies dst
    ensures dst[..n] == Padded(Take(src, n - 1), n)
    ensures Holds(dst[..], Take(src, n - 1))
    ensures forall j :: n <= j < dst.Length ==> dst[j] == old(dst[j])
  {
    StrNCpy(dst, src, n - 1);
    dst[n - 1] := NUL;
    assert dst[..n] == dst[..n - 1] + [NUL];
    PaddedHolds(Take(src, n - 1), n);
    assert dst[..][..n] == dst[..n];
  }

  /** x_snprintf(dst, n, fmt, ...) once the `%s` conversions of `fmt` have
      produced `text`. `_vsnprintf` writes at most `n` characters, and a
      terminator only when `text` is shorter than `n`; then `dst[n - 1]` is
      forced to the terminator. The result is `_vsnprintf`'s: the length of
      `text`, or -1 when it did not fit. */
  method XSnprintf(dst: array?<char>, n: nat, text: string) returns (r: int)
    requires NoNul(text)
    requires dst != null ==> n <= dst.Length
    modifies dst
    ensures dst == null || n == 0 ==> r == 0
    ensures dst != null && n == 0 ==> dst[..] == old(dst[..])
    ensures dst != null && n > 0 ==>
              && Holds(dst[..], Take(text, n - 1))
              && dst[n - 1] == NUL
              && (forall i :: |Take(text, n - 1)| < i < dst.Length && i != n - 1 ==> dst[i] == old(dst[i]))
              && r == (if |text| <= n then |text| else -1)
  {
    if dst == null || n == 0 {
      return 0;
    }
    var i := 0;
    while i < n && i < |text|
      invariant i <= n && i <= |text|
      invariant dst[..i] == text[..i]
      invariant forall j :: i <= j < dst.Length ==> dst[j] == old(dst[j])
    {
      dst[i] := text[i];
      i := i + 1;
    }
    if i < n {
      dst[i] := NUL;
    }
    r := if |text| <= n then |text| else -1;
    dst[n - 1] := NUL;
  }
}
