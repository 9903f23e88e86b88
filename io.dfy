/** The asset resolver (`getFileLocation`), the normalised file check
    (`fileExists`) and the sorted directory listing (`getFileList`). The
    operating system is a set of oracles: `stat` for _stat, `isFile` for a
    successful fopen, a `FileSystem` for the native directory search and
    `alloc` for the outcome of each malloc. */
module Io {
  import opened CStrings
  import opened PathUtil
  import opened DirentCompat
  import opened StringOrder

  /** The asset root of the Xbox build. */
  const DATA_DIR: string := "D:\\assets"

  /** pathExistsPortable / fileExistsPortable: the empty string never
      exists; otherwise the oracle decides. */
  predicate Present(oracle: string -> bool, p: string) {
    |p| > 0 && oracle(p)
  }

  /** The index of the first path of `ps` that exists, or `|ps|` when
      none does. */
  function FirstPresent(ps: seq<string>, stat: string -> bool): (k: nat)
    ensures k <= |ps|
    ensures forall j :: 0 <= j < k ==> !Present(stat, ps[j])
    ensures k < |ps| ==> Present(stat, ps[k])
  {
    if ps == [] then 0
    else if Present(stat, ps[0]) then 0
    else 1 + FirstPresent(ps[1..], stat)
  }

  /** The first present path is unique: an index whose path exists after
      only absent ones is the one FirstPresent finds. */
  lemma FirstPresentIs(ps: seq<string>, stat: string -> bool, k: nat)
    requires k <= |ps| && (k < |ps| ==> Present(stat, ps[k]))
    requires forall j :: 0 <= j < k ==> !Present(stat, ps[j])
    ensures FirstPresent(ps, stat) == k
  {
  }

  /** Step 3's prefix test: `strncmp(f, "data/", 5)` or `strncmp(f,
      "data\\", 5)` matching drops exactly those five characters; any other
      name is used as it is. */
  function StripDataPrefix(f: string): (r: string)
    ensures |r| <= |f| && (NoNul(f) ==> NoNul(r))
    ensures |r| == |f| - 5 <==> |f| >= 5 && (f[..5] == "data/" || f[..5] == "data\\")
    ensures |r| != |f| - 5 ==> r == f
    ensures |f| >= 5 && (f[..5] == "data/" || f[..5] == "data\\") ==> r == f[5..]
  {
    if |f| >= 5 && (f[..5] == "data/" || f[..5] == "data\\") then f[5..] else f
  }

  /** Candidate 0: the name as it is, normalised. */
  function AsIs(f: string, cap: nat): (r: string)
    requires cap >= 1
    ensures |r| < cap
  {
    Normalize(Take(f, cap - 1))
  }

  /** Candidates 1 to 3: `leaf` joined under DATA_DIR. */
  function UnderDataDir(leaf: string, cap: nat): (r: string)
    requires cap >= 1
    ensures |r| < cap
  {
    Take(JoinedPath(DATA_DIR, leaf), cap - 1)
  }

  /** The leaf of candidate 2: "data/" and the name, normalised. */
  function DataLeaf(f: string, cap: nat): (r: string)
    requires cap >= 1
    ensures |r| < cap
  {
    AsIs("data/" + f, cap)
  }

  /** Candidate 4: DATA_DIR, '/', and the name, normalised. */
  function LastShot(f: string, cap: nat): (r: string)
    requires cap >= 1
    ensures |r| < cap
  {
    AsIs(DATA_DIR + "/" + f, cap)
  }

  /** The five paths getFileLocation tries, in order, each as its buffer of
      `cap` characters holds it. */
  function Candidates(f: string, cap: nat): (cs: seq<string>)
    requires cap >= 1
    ensures |cs| == 5
    ensures |cs[0]| < cap && |cs[1]| < cap && |cs[2]| < cap && |cs[3]| < cap && |cs[4]| < cap
  {
    var c0 := AsIs(f, cap);
    var c1 := UnderDataDir(f, cap);
    var c2 := UnderDataDir(DataLeaf(f, cap), cap);
    var c3 := UnderDataDir(StripDataPrefix(f), cap);
    var c4 := LastShot(f, cap);
    [c0, c1, c2, c3, c4]
  }

  /** The first candidate `stat` finds, or None when it finds none. */
  function Resolve(f: string, cap: nat, stat: string -> bool): (r: Option<string>)
    requires cap >= 1
    ensures r.Some? ==> r.value in Candidates(f, cap) && Present(stat, r.value)
  {
    PickFirst(Candidates(f, cap), stat)
  }

  /** The first path of `ps` that exists, if any. */
  function PickFirst(ps: seq<string>, stat: string -> bool): (r: Option<string>)
    ensures r.Some? ==> r.value in ps && Present(stat, r.value)
  {
    var k := FirstPresent(ps, stat);
    if k < |ps| then Some(ps[k]) else None
  }

  /** PickFirst is None exactly when no path is present, and otherwise a
      present path all of whose predecessors are absent. */
  lemma PickFirstSpec(ps: seq<string>, stat: string -> bool)
    ensures var r := PickFirst(ps, stat);
            && (r.None? <==> forall i :: 0 <= i < |ps| ==> !Present(stat, ps[i]))
            && (r.Some? ==>
                  exists k :: 0 <= k < |ps| && r.value == ps[k]
                              && forall j :: 0 <= j < k ==> !Present(stat, ps[j]))
            && (r.Some? ==> Present(stat, r.value))
  {
    var k := FirstPresent(ps, stat);
    if k < |ps| {
      assert Present(stat, ps[k]);
    }
  }

  /** The resolution is None exactly when no candidate is present, and
      otherwise a present candidate all of whose predecessors are absent. */
  lemma ResolveFirst(f: string, cap: nat, stat: string -> bool)
    requires cap >= 1
    ensures var r := Resolve(f, cap, stat);
            && (r.None? <==> forall i :: 0 <= i < 5 ==> !Present(stat, Candidates(f, cap)[i]))
            && (r.Some? ==>
                  exists k :: 0 <= k < 5 && r.value == Candidates(f, cap)[k]
                              && forall j :: 0 <= j < k ==> !Present(stat, Candidates(f, cap)[j]))
            && (r.Some? ==> Present(stat, r.value) && |r.value| < cap)
  {
    PickFirstSpec(Candidates(f, cap), stat);
    CandidatesFit(f, cap);
  }

  /** Every candidate fits its buffer. */
  lemma CandidatesFit(f: string, cap: nat)
    requires cap >= 1
    ensures forall i :: 0 <= i < 5 ==> |Candidates(f, cap)[i]| < cap
  {
    var cs := Candidates(f, cap);
    forall i | 0 <= i < 5
      ensures |cs[i]| < cap
    {
      if i == 0 {
      } else if i == 1 {
      } else if i == 2 {
      } else if i == 3 {
      }
    }
  }

  /** The resolution picks candidate `k` when `k` is present and every
      earlier one is not, and is None when none of the five is present. */
  lemma ResolveAt(f: string, cap: nat, stat: string -> bool, k: nat)
    requires cap >= 1 && k <= 5
    requires k < 5 ==> Present(stat, Candidates(f, cap)[k])
    requires forall j :: 0 <= j < k ==> !Present(stat, Candidates(f, cap)[j])
    ensures Resolve(f, cap, stat) == if k < 5 then Some(Candidates(f, cap)[k]) else None
  {
    FirstPresentIs(Candidates(f, cap), stat, k);
    assert Resolve(f, cap, stat) == PickFirst(Candidates(f, cap), stat);
  }

  /** The name as it is, normalised, has no '/'. */
  lemma AsIsNoSlash(f: string, cap: nat)
    requires cap >= 1
    ensures NoSlash(AsIs(f, cap))
  {
    NormalizeClean(Take(f, cap - 1));
  }

  /** A path joined under DATA_DIR and cut to fit has no '/'. */
  lemma UnderDataDirNoSlash(leaf: string, cap: nat)
    requires cap >= 1
    ensures NoSlash(UnderDataDir(leaf, cap))
  {
    var j := JoinedPath(DATA_DIR, leaf);
    JoinedPathClean(DATA_DIR, leaf);
    var r := Take(j, cap - 1);
    assert forall i :: 0 <= i < |r| ==> r[i] == j[i];
  }

  /** Every candidate uses only the platform's separator. */
  lemma CandidatesNoSlash(f: string, cap: nat)
    requires cap >= 1
    ensures forall i :: 0 <= i < 5 ==> NoSlash(Candidates(f, cap)[i])
  {
    var cs := Candidates(f, cap);
    forall i | 0 <= i < 5
      ensures NoSlash(cs[i])
    {
      if i == 0 {
        AsIsNoSlash(f, cap);
      } else if i == 1 {
        UnderDataDirNoSlash(f, cap);
      } else if i == 2 {
        UnderDataDirNoSlash(DataLeaf(f, cap), cap);
      } else if i == 3 {
        UnderDataDirNoSlash(StripDataPrefix(f), cap);
      } else {
        AsIsNoSlash(DATA_DIR + "/" + f, cap);
      }
    }
  }

  /** Whatever the resolution returns uses only the platform's separator. */
  lemma ResolvedNoSlash(f: string, cap: nat, stat: string -> bool)
    requires cap >= 1 && Resolve(f, cap, stat).Some?
    ensures NoSlash(Resolve(f, cap, stat).value)
  {
    ResolveFirst(f, cap, stat);
    CandidatesNoSlash(f, cap);
  }

  /** When the normalised name itself exists it wins, whatever else exists. */
  lemma AsIsWins(f: string, cap: nat, stat: string -> bool)
    requires cap >= 1 && Present(stat, AsIs(f, cap))
    ensures Resolve(f, cap, stat) == Some(AsIs(f, cap))
  {
    ResolveAt(f, cap, stat, 0);
  }

  /** Joining a leaf that does not start with a separator under DATA_DIR
      puts one '\\' between them and normalises the leaf. */
  lemma DataDirJoin(x: string)
    requires x != [] && !IsSep(x[0])
    ensures JoinedPath(DATA_DIR, x) == DATA_DIR + "\\" + Normalize(x)
  {
    DataDirNormal();
    JoinPlain(DATA_DIR, x);
  }

  /** DATA_DIR uses only the platform's separator. */
  lemma DataDirNormal()
    ensures |DATA_DIR| > 0 && !IsSep(DATA_DIR[|DATA_DIR| - 1])
    ensures Normalize(DATA_DIR) == DATA_DIR
  {
    assert forall i :: 0 <= i < |DATA_DIR| ==> DATA_DIR[i] != '/';
    NormalizeKeeps(DATA_DIR);
  }

  /** Where "data/x" lives under DATA_DIR: DATA_DIR, '\\', and "data/x"
      normalised. */
  function DataCopy(name: string): (r: string)
    ensures |r| == |DATA_DIR| + 6 + |name|
  {
    DATA_DIR + "\\" + Normalize("data/" + name)
  }

  /** With room for it, "data/x" is found by candidate 1 as its DataCopy. */
  lemma PrefixedCandidate(name: string, cap: nat)
    requires |DATA_DIR| + 6 + |name| < cap
    ensures UnderDataDir("data/" + name, cap) == DataCopy(name)
  {
    var pre := "data/" + name;
    assert pre[0] == 'd';
    DataDirJoin(pre);
  }

  /** With room for it, "x" is found by candidate 2 as its DataCopy. */
  lemma BareCandidate(name: string, cap: nat)
    requires |DATA_DIR| + 6 + |name| < cap
    ensures UnderDataDir(DataLeaf(name, cap), cap) == DataCopy(name)
  {
    var pre := "data/" + name;
    var leaf := Normalize(pre);
    assert DataLeaf(name, cap) == leaf;
    assert pre[0] == 'd';
    assert leaf[0] == 'd';
    DataDirJoin(leaf);
    NormalizeIdempotent(pre);
  }

  /** The earlier candidates of "x" are all shorter than its DataCopy. */
  lemma BareEarlierShorter(name: string, cap: nat)
    requires name != [] && !IsSep(name[0])
    requires |DATA_DIR| + 6 + |name| < cap
    ensures |AsIs(name, cap)| == |name|
    ensures |UnderDataDir(name, cap)| == |DATA_DIR| + 1 + |name|
  {
    DataDirJoin(name);
  }

  /** With room for every path, "data/x" and "x" resolve to the same file
      when only the copy under DATA_DIR\\data exists: one is found by
      keeping the prefix, the other by adding it. */
  lemma DataPrefixConverges(name: string, cap: nat, stat: string -> bool)
    requires |name| > 0 && !IsSep(name[0])
    requires |DATA_DIR| + 6 + |name| < cap
    requires forall p :: stat(p) <==> p == DataCopy(name)
    ensures Resolve("data/" + name, cap, stat) == Some(DataCopy(name))
    ensures Resolve(name, cap, stat) == Some(DataCopy(name))
  {
    PrefixedResolves(name, cap, stat);
    BareResolves(name, cap, stat);
  }

  lemma AsIsShort(f: string, cap: nat)
    requires |f| < cap
    ensures |AsIs(f, cap)| == |f|
  {
  }

  lemma PrefixedResolves(name: string, cap: nat, stat: string -> bool)
    requires |DATA_DIR| + 6 + |name| < cap
    requires forall p :: stat(p) <==> p == DataCopy(name)
    ensures Resolve("data/" + name, cap, stat) == Some(DataCopy(name))
  {
    var pre := "data/" + name;
    PrefixedCandidate(name, cap);
    AsIsShort(pre, cap);
    assert !Present(stat, AsIs(pre, cap));
    ResolveSecond(pre, cap, stat);
  }

  /** Candidate 1 wins when candidate 0 is absent and it is present. */
  lemma ResolveSecond(f: string, cap: nat, stat: string -> bool)
    requires cap >= 1
    requires !Present(stat, AsIs(f, cap)) && Present(stat, UnderDataDir(f, cap))
    ensures Resolve(f, cap, stat) == Some(UnderDataDir(f, cap))
  {
    ResolveAt(f, cap, stat, 1);
  }

  lemma BareResolves(name: string, cap: nat, stat: string -> bool)
    requires |name| > 0 && !IsSep(name[0])
    requires |DATA_DIR| + 6 + |name| < cap
    requires forall p :: stat(p) <==> p == DataCopy(name)
    ensures Resolve(name, cap, stat) == Some(DataCopy(name))
  {
    BareCandidate(name, cap);
    BareEarlierShorter(name, cap);
    assert !Present(stat, AsIs(name, cap)) && !Present(stat, UnderDataDir(name, cap));
    ResolveThird(name, cap, stat);
  }

  /** Candidate 2 wins when the first two are absent and it is present. */
  lemma ResolveThird(f: string, cap: nat, stat: string -> bool)
    requires cap >= 1
    requires !Present(stat, AsIs(f, cap)) && !Present(stat, UnderDataDir(f, cap))
    requires Present(stat, UnderDataDir(DataLeaf(f, cap), cap))
    ensures Resolve(f, cap, stat) == Some(UnderDataDir(DataLeaf(f, cap), cap))
  {
    ResolveAt(f, cap, stat, 2);
  }

  /** The static buffers of getFileLocation: the result buffer and the four
      scratch paths, each MAX_FILENAME_LENGTH (`cap`) characters. */
  class Resolver {
    const cap: nat
    const resolved: array<char>
    const pathA: array<char>
    const pathB: array<char>
    const pathC: array<char>
    const pathD: array<char>

    ghost predicate Valid()
      reads this
    {
      && cap >= 1
      && resolved.Length == cap && pathA.Length == cap && pathB.Length == cap
      && pathC.Length == cap && pathD.Length == cap
      && resolved != pathA && resolved != pathB && resolved != pathC && resolved != pathD
      && pathA != pathB && pathA != pathC && pathA != pathD
      && pathB != pathC && pathB != pathD && pathC != pathD
    }

    constructor (cap: nat)
      requires cap >= 1
      ensures Valid() && this.cap == cap
      ensures fresh(resolved) && fresh(pathA) && fresh(pathB) && fresh(pathC) && fresh(pathD)
    {
      this.cap := cap;
      resolved := new char[cap](_ => NUL);
      pathA := new char[cap](_ => NUL);
      pathB := new char[cap](_ => NUL);
      pathC := new char[cap](_ => NUL);
      pathD := new char[cap](_ => NUL);
    }

    /** getFileLocation(filename): NULL for NULL; otherwise the candidates
        are built and tried in order and the first that exists is copied
        into `resolved`, which is returned. When the normalised name itself
        exists, none of the DATA_DIR buffers is touched. */
    method GetFileLocation(filename: Option<string>, stat: string -> bool) returns (r: array?<char>)
      requires Valid() && (filename.Some? ==> NoNul(filename.value))
      modifies resolved, pathA, pathB, pathC, pathD
      ensures r == null || r == resolved
      ensures filename.None? ==> r == null
      ensures filename.Some? ==>
                var res := Resolve(filename.value, cap, stat);
                && (r == null <==> res.None?)
                && (r != null ==> NoNul(res.value) && Holds(resolved[..], res.value))
      ensures filename.Some? && r == null ==> Holds(resolved[..], AsIs(filename.value, cap))
      ensures filename.Some? && Present(stat, AsIs(filename.value, cap)) ==>
                unchanged(pathA) && unchanged(pathB) && unchanged(pathC) && unchanged(pathD)
    {
      if filename.None? {
        return null;
      }
      var f := filename.value;
      var found := TryAsIs(f, stat);
      if found {
        ResolveAt(f, cap, stat, 0);
        return resolved;
      }
      r := From1(f, stat);
    }

    /** Candidate `k` exists after only absent ones: it is the resolution,
        and is copied from its buffer into `resolved`. */
    method Found(f: string, stat: string -> bool, k: nat, buf: array<char>) returns (r: array?<char>)
      requires Valid() && 0 < k < 5 && buf.Length == cap && buf != resolved
      requires forall j :: 0 <= j < k ==> !Present(stat, Candidates(f, cap)[j])
      requires Present(stat, Candidates(f, cap)[k])
      requires NoNul(Candidates(f, cap)[k]) && Holds(buf[..], Candidates(f, cap)[k])
      modifies resolved
      ensures r == resolved && Resolve(f, cap, stat).Some?
      ensures NoNul(Resolve(f, cap, stat).value) && Holds(resolved[..], Resolve(f, cap, stat).value)
    {
      ResolveAt(f, cap, stat, k);
      CopyBack(buf, Candidates(f, cap)[k]);
      return resolved;
    }

    /** From candidate 1 on, once the name as it is was not found. */
    method From1(f: string, stat: string -> bool) returns (r: array?<char>)
      requires Valid() && NoNul(f)
      requires !Present(stat, Candidates(f, cap)[0])
      modifies resolved, pathA, pathB, pathC, pathD
      ensures r == null || r == resolved
      ensures r == null <==> Resolve(f, cap, stat).None?
      ensures r != null ==> NoNul(Resolve(f, cap, stat).value) && Holds(resolved[..], Resolve(f, cap, stat).value)
      ensures r == null ==> resolved[..] == old(resolved[..])
    {
      var found := TryUnderDataDir(f, stat);
      if found {
        r := Found(f, stat, 1, pathA);
      } else {
        r := From2(f, stat);
      }
    }

    /** From candidate 2 on. */
    method From2(f: string, stat: string -> bool) returns (r: array?<char>)
      requires Valid() && NoNul(f)
      requires forall j :: 0 <= j < 2 ==> !Present(stat, Candidates(f, cap)[j])
      modifies resolved, pathB, pathC, pathD
      ensures r == null || r == resolved
      ensures r == null <==> Resolve(f, cap, stat).None?
      ensures r != null ==> NoNul(Resolve(f, cap, stat).value) && Holds(resolved[..], Resolve(f, cap, stat).value)
      ensures r == null ==> resolved[..] == old(resolved[..])
    {
      var found := TryUnderDataDirData(f, stat);
      if found {
        r := Found(f, stat, 2, pathB);
      } else {
        r := From3(f, stat);
      }
    }

    /** From candidate 3 on. */
    method From3(f: string, stat: string -> bool) returns (r: array?<char>)
      requires Valid() && NoNul(f)
      requires forall j :: 0 <= j < 3 ==> !Present(stat, Candidates(f, cap)[j])
      modifies resolved, pathC, pathD
      ensures r == null || r == resolved
      ensures r == null <==> Resolve(f, cap, stat).None?
      ensures r != null ==> NoNul(Resolve(f, cap, stat).value) && Holds(resolved[..], Resolve(f, cap, stat).value)
      ensures r == null ==> resolved[..] == old(resolved[..])
    {
      var found := TryStripped(f, stat);
      if found {
        r := Found(f, stat, 3, pathC);
      } else {
        r := From4(f, stat);
      }
    }

    /** The last candidate; NULL when it is absent too. */
    method From4(f: string, stat: string -> bool) returns (r: array?<char>)
      requires Valid() && NoNul(f)
      requires forall j :: 0 <= j < 4 ==> !Present(stat, Candidates(f, cap)[j])
      modifies resolved, pathD
      ensures r == null || r == resolved
      ensures r == null <==> Resolve(f, cap, stat).None?
      ensures r != null ==> NoNul(Resolve(f, cap, stat).value) && Holds(resolved[..], Resolve(f, cap, stat).value)
      ensures r == null ==> resolved[..] == old(resolved[..])
    {
      var found := TryLastShot(f, stat);
      if found {
        r := Found(f, stat, 4, pathD);
      } else {
        ResolveAt(f, cap, stat, 5);
        r := null;
      }
    }

    /** Step 0: x_snprintf the name into `resolved`, normalise, check. */
    method TryAsIs(f: string, stat: string -> bool) returns (found: bool)
      requires Valid() && NoNul(f)
      modifies resolved
      ensures NoNul(Candidates(f, cap)[0]) && Holds(resolved[..], Candidates(f, cap)[0])
      ensures found == Present(stat, Candidates(f, cap)[0])
    {
      var s := SnprintfNormalized(resolved, f);
      assert s == Candidates(f, cap)[0];
      found := CheckPresent(resolved, stat);
      HoldsDeterminesString(resolved[..], s);
    }

    /** Step 1: join_path(pathA, cap, DATA_DIR, filename), check. */
    method TryUnderDataDir(f: string, stat: string -> bool) returns (found: bool)
      requires Valid() && NoNul(f)
      modifies pathA
      ensures NoNul(Candidates(f, cap)[1]) && Holds(pathA[..], Candidates(f, cap)[1])
      ensures found == Present(stat, Candidates(f, cap)[1])
    {
      found := JoinUnderDataDir(pathA, f, stat);
      assert Candidates(f, cap)[1] == UnderDataDir(f, cap);
    }

    /** Step 2: x_snprintf "data/" and the name into a local leaf buffer,
        normalise it, join_path(pathB, cap, DATA_DIR, leaf), check. */
    method TryUnderDataDirData(f: string, stat: string -> bool) returns (found: bool)
      requires Valid() && NoNul(f)
      modifies pathB
      ensures NoNul(Candidates(f, cap)[2]) && Holds(pathB[..], Candidates(f, cap)[2])
      ensures found == Present(stat, Candidates(f, cap)[2])
    {
      var leaf := new char[cap];
      var ls := SnprintfNormalized(leaf, "data/" + f);
      assert ls == DataLeaf(f, cap);
      found := JoinUnderDataDir(pathB, ls, stat);
      assert Candidates(f, cap)[2] == UnderDataDir(ls, cap);
    }

    /** Step 3: drop a leading "data/" or "data\\", join_path(pathC, cap,
        DATA_DIR, rest), check. */
    method TryStripped(f: string, stat: string -> bool) returns (found: bool)
      requires Valid() && NoNul(f)
      modifies pathC
      ensures NoNul(Candidates(f, cap)[3]) && Holds(pathC[..], Candidates(f, cap)[3])
      ensures found == Present(stat, Candidates(f, cap)[3])
    {
      var rest := StripDataPrefix(f);
      assert NoNul(rest);
      found := JoinUnderDataDir(pathC, rest, stat);
      assert Candidates(f, cap)[3] == UnderDataDir(rest, cap);
    }

    /** Step 4: x_snprintf DATA_DIR, '/' and the name into pathD, normalise,
        check. */
    method TryLastShot(f: string, stat: string -> bool) returns (found: bool)
      requires Valid() && NoNul(f)
      modifies pathD
      ensures NoNul(Candidates(f, cap)[4]) && Holds(pathD[..], Candidates(f, cap)[4])
      ensures found == Present(stat, Candidates(f, cap)[4])
    {
      var s := SnprintfNormalized(pathD, DATA_DIR + "/" + f);
      assert s == Candidates(f, cap)[4];
      found := CheckPresent(pathD, stat);
      HoldsDeterminesString(pathD[..], s);
    }

    /** join_path(buf, cap, DATA_DIR, leaf), then the existence check. */
    method JoinUnderDataDir(buf: array<char>, leaf: string, stat: string -> bool) returns (found: bool)
      requires Valid() && buf.Length == cap && NoNul(leaf)
      modifies buf
      ensures NoNul(UnderDataDir(leaf, cap)) && Holds(buf[..], UnderDataDir(leaf, cap))
      ensures found == Present(stat, UnderDataDir(leaf, cap))
    {
      JoinPath(buf, cap, Some(DATA_DIR), Some(leaf));
      ghost var j := JoinedPath(DATA_DIR, leaf);
      TakeExcludes(j, cap - 1, NUL);
      HoldsDeterminesString(buf[..], Take(j, cap - 1));
      found := CheckPresent(buf, stat);
    }

    /** x_snprintf(resolved, cap, "%s", buf) for the winning scratch buffer. */
    method CopyBack(buf: array<char>, ghost p: string)
      requires Valid() && buf != resolved && buf.Length == cap
      requires NoNul(p) && Holds(buf[..], p)
      modifies resolved
      ensures Holds(resolved[..], p)
    {
      var s := StringOf(buf);
      HoldsDeterminesString(buf[..], p);
      HoldsDeterminesString(buf[..], s);
      var _ := XSnprintf(resolved, cap, s);
    }
  }

  /** x_snprintf(buf, len, "%s", text) followed by
      normalize_separators_inplace(buf); the string the buffer then holds. */
  method SnprintfNormalized(buf: array<char>, text: string) returns (s: string)
    requires buf.Length >= 1 && NoNul(text)
    modifies buf
    ensures s == Normalize(Take(text, buf.Length - 1))
    ensures NoNul(s) && Holds(buf[..], s)
  {
    var _ := XSnprintf(buf, buf.Length, text);
    ghost var t := Take(text, buf.Length - 1);
    assert NoNul(t);
    NormalizeHeld(buf, t, Normalize(t));
    s := StringOf(buf);
    HoldsDeterminesString(buf[..], s);
    HoldsDeterminesString(buf[..], Normalize(t));
  }

  /** pathExistsPortable(buf) / fileExistsPortable(buf): an empty string is
      absent without asking the oracle. */
  method CheckPresent(buf: array<char>, oracle: string -> bool) returns (b: bool)
    requires NUL in buf[..]
    ensures b == Present(oracle, CStr(buf[..]))
  {
    if buf[0] == NUL {
      return false;
    }
    var s := StringOf(buf);
    HoldsDeterminesString(buf[..], s);
    b := oracle(s);
  }

  /** fileExists(filename): 0 for NULL; otherwise the name is copied into a
      local buffer of `cap` characters, normalised, and opened. */
  method FileExists(filename: Option<string>, cap: nat, isFile: string -> bool) returns (b: bool)
    requires cap >= 1 && (filename.Some? ==> NoNul(filename.value))
    ensures b <==> filename.Some? && Present(isFile, AsIs(filename.value, cap))
  {
    if filename.None? {
      return false;
    }
    var fixed := new char[cap];
    var s := SnprintfNormalized(fixed, filename.value);
    HoldsDeterminesString(fixed[..], s);
    b := CheckPresent(fixed, isFile);
  }

  /** getFileList's filter: a name whose d_name starts with '.' is hidden. */
  predicate Listed(e: FindData) {
    !(|e.cFileName| > 0 && e.cFileName[0] == '.')
  }

  /** What STRNCPY leaves in a name buffer of `cap` characters: d_name cut to
      `cap - 1` characters. */
  function StoredName(e: FindData, cap: nat): (r: string)
    requires cap >= 1
    ensures |r| < cap && |r| < NAME_MAX
    ensures |r| <= |e.cFileName| && r == e.cFileName[..|r|]
  {
    Take(Take(e.cFileName, NAME_MAX - 1), cap - 1)
  }

  /** The names getFileList keeps from a run of entries, in stream order. */
  function Names(xs: seq<FindData>, cap: nat): (r: seq<string>)
    requires cap >= 1
    ensures |r| <= |xs|
  {
    if xs == [] then []
    else
      var init := Names(xs[..|xs| - 1], cap);
      if Listed(xs[|xs| - 1]) then init + [StoredName(xs[|xs| - 1], cap)] else init
  }

  /** Keeping names works piece by piece. */
  lemma {:induction false} NamesAppend(a: seq<FindData>, b: seq<FindData>, cap: nat)
    requires cap >= 1
    ensures Names(a + b, cap) == Names(a, cap) + Names(b, cap)
  {
    if b == [] {
      assert a + b == a;
    } else {
      var b' := b[..|b| - 1];
      assert (a + b)[..|a + b| - 1] == a + b';
      NamesAppend(a, b', cap);
    }
  }

  /** Every kept name is a stored native name that is not hidden, and none
      is "." or "..". */
  lemma {:induction false} NamesShown(xs: seq<FindData>, cap: nat, i: nat)
    requires cap >= 1 && i < |Names(xs, cap)|
    ensures exists j :: 0 <= j < |xs| && Listed(xs[j]) && Names(xs, cap)[i] == StoredName(xs[j], cap)
  {
    var init := xs[..|xs| - 1];
    if i < |Names(init, cap)| {
      NamesShown(init, cap, i);
      var j :| 0 <= j < |init| && Listed(init[j]) && Names(init, cap)[i] == StoredName(init[j], cap);
      assert xs[j] == init[j];
    } else {
      assert Names(xs, cap)[i] == StoredName(xs[|xs| - 1], cap);
    }
  }

  /** The malloc for the j-th kept name succeeds. */
  predicate NameAllocOk(alloc: nat -> bool, j: nat) {
    alloc(1 + j)
  }

  predicate AllocsOk(alloc: nat -> bool, n: nat) {
    forall j :: 0 <= j < n ==> NameAllocOk(alloc, j)
  }

  lemma AllocsOkStep(alloc: nat -> bool, n: nat)
    requires AllocsOk(alloc, n) && NameAllocOk(alloc, n)
    ensures AllocsOk(alloc, n + 1)
  {
  }

  /** The two passes of getFileList over a stream whose kept names are
      `names`: None when nothing is listed or a malloc fails, otherwise the
      names in strcmp order. `alloc(0)` is the outcome of the array's
      malloc, `alloc(1 + j)` that of the j-th name's. */
  ghost function Collected(names: seq<string>, alloc: nat -> bool): (r: Option<seq<string>>)
    ensures r.Some? ==> names != [] && multiset(r.value) == multiset(names)
  {
    if |names| == 0 || !alloc(0) || !AllocsOk(alloc, |names|) then None
    else Some(SortStrings(names))
  }

  /** getFileList on a resolved directory: None where the code returns
      NULL (opendir fails, the directory shows no names, or a malloc
      fails), otherwise the kept names in strcmp order. */
  ghost function Listing(path: string, cap: nat, fs: FileSystem, dirAllocOk: bool,
                         alloc: nat -> bool): (r: Option<seq<string>>)
    requires cap >= 1
    ensures r.Some? ==> dirAllocOk && r.value != []
  {
    if !dirAllocOk || fs(MakePattern(path)) == [] then None
    else Collected(Names(Visible(fs(MakePattern(path))), cap), alloc)
  }

  /** The whole of getFileList as a value: NULL for NULL or an unresolved
      directory, otherwise the listing of the resolved path. */
  ghost function FileList(dir: Option<string>, cap: nat, stat: string -> bool, fs: FileSystem,
                          dirAllocOk: bool, alloc: nat -> bool): (r: Option<seq<string>>)
    requires cap >= 1
    ensures r.Some? ==> dir.Some? && Resolve(dir.value, cap, stat).Some? && r.value != []
  {
    if dir.None? then None
    else
      var res := Resolve(dir.value, cap, stat);
      if res.None? then None
      else Listing(res.value, cap, fs, dirAllocOk, alloc)
  }

  /** Kept names of NUL-free native names are NUL-free. */
  lemma {:induction false} NamesNoNul(xs: seq<FindData>, cap: nat)
    requires cap >= 1 && WellFormed(xs)
    ensures AllNoNul(Names(xs, cap))
  {
    if xs != [] {
      var last := xs[|xs| - 1];
      NamesNoNul(xs[..|xs| - 1], cap);
      TakeExcludes(last.cFileName, NAME_MAX - 1, NUL);
      TakeExcludes(Take(last.cFileName, NAME_MAX - 1), cap - 1, NUL);
    }
  }

  /** A listing getFileList returns is non-empty, sorted by strcmp, and a
      permutation of the kept names of the directory stream. */
  lemma FileListShape(dir: Option<string>, cap: nat, stat: string -> bool, fs: FileSystem,
                      dirAllocOk: bool, alloc: nat -> bool)
    requires cap >= 1 && forall p :: WellFormed(fs(p))
    requires FileList(dir, cap, stat, fs, dirAllocOk, alloc).Some?
    ensures var path := Resolve(dir.value, cap, stat).value;
            var names := Names(Visible(fs(MakePattern(path))), cap);
            var ns := FileList(dir, cap, stat, fs, dirAllocOk, alloc).value;
            && |ns| > 0 && Sorted(ns) && multiset(ns) == multiset(names)
  {
    var path := Resolve(dir.value, cap, stat).value;
    var listing := fs(MakePattern(path));
    assert FileList(dir, cap, stat, fs, dirAllocOk, alloc) == Listing(path, cap, fs, dirAllocOk, alloc);
    assert WellFormed(listing);
    VisibleWellFormed(listing);
    NamesNoNul(Visible(listing), cap);
    SortStringsSorted(Names(Visible(listing), cap));
  }

  /** `readdir(d)` and the `d_name[0] != '.'` test both passes of
      getFileList apply to what it returns. */
  method ReadListed(d: Dir, de: Dirent) returns (got: bool, listed: bool, ghost e: FindData)
    requires d.Valid() && d.live && de.dName.Length == NAME_MAX
    modifies d, de, de.dName
    ensures d.Valid() && d.live
    ensures got <==> old(d.Stream()) != []
    ensures !got ==> d.Stream() == []
    ensures got ==> && old(d.Stream()) == [e] + d.Stream()
                    && listed == Listed(e)
                    && NoNul(e.cFileName) && de.dName[..] == DName(e.cFileName)
  {
    ghost var before := d.Stream();
    var ent := ReadDir(d, de);
    got := ent != null;
    listed := false;
    e := FindData([], 0);
    if got {
      e := before[0];
      DNameHolds(e.cFileName);
      listed := ent.dName[0] != '.';
      Uncons(before);
    }
  }

  /** The first pass of getFileList: read the handle dry and count the
      entries whose d_name does not start with '.'. */
  method CountPass(d: Dir, de: Dirent, ghost cap: nat) returns (i: nat)
    requires cap >= 1 && d.Valid() && d.live && de.dName.Length == NAME_MAX
    modifies d, de, de.dName
    ensures d.Valid() && d.live && d.Stream() == []
    ensures i == |Names(old(d.Stream()), cap)|
  {
    ghost var s0 := d.Stream();
    ghost var seen: seq<FindData> := [];
    i := 0;
    while true
      invariant d.Valid() && d.live
      invariant s0 == seen + d.Stream()
      invariant i == |Names(seen, cap)|
      decreases |d.Stream()|
    {
      var got, listed, e := ReadListed(d, de);
      if !got {
        assert d.Stream() == [];
        assert seen == s0;
        return;
      }
      if listed {
        i := i + 1;
      }
      KeepOne(seen, e, cap);
      Regroup(seen, e, d.Stream());
      seen := seen + [e];
    }
  }

  lemma Uncons(s: seq<FindData>)
    requires s != []
    ensures s == [s[0]] + s[1..]
  {
  }

  lemma Regroup(seen: seq<FindData>, e: FindData, rest: seq<FindData>)
    ensures seen + ([e] + rest) == (seen + [e]) + rest
  {
  }

  /** The name one entry contributes: its stored name when it is listed. */
  function Kept(e: FindData, cap: nat): (r: seq<string>)
    requires cap >= 1
    ensures |r| <= 1
  {
    if Listed(e) then [StoredName(e, cap)] else []
  }

  /** Reading one more entry keeps its stored name exactly when it is listed. */
  lemma KeepOne(seen: seq<FindData>, e: FindData, cap: nat)
    requires cap >= 1
    ensures Names(seen + [e], cap) == Names(seen, cap) + Kept(e, cap)
  {
    assert (seen + [e])[..|seen|] == seen;
  }

  /** Names of a stream split at its first entry. */
  lemma NamesHead(e: FindData, rest: seq<FindData>, cap: nat)
    requires cap >= 1
    ensures |Names([e] + rest, cap)| == |Kept(e, cap)| + |Names(rest, cap)|
  {
    NamesAppend([e], rest, cap);
    assert [e][..0] == [];
  }

  /** malloc(MAX_FILENAME_LENGTH), memset and STRNCPY of d_name: the name
      the new buffer holds. */
  method CopyName(de: Dirent, ghost e: FindData, cap: nat) returns (nm: string)
    requires cap >= 1 && de.dName.Length == NAME_MAX
    requires NoNul(e.cFileName) && de.dName[..] == DName(e.cFileName)
    ensures nm == StoredName(e, cap)
  {
    DNameHolds(e.cFileName);
    HoldsDeterminesString(de.dName[..], Take(e.cFileName, NAME_MAX - 1));
    var s := StringOf(de.dName);
    HoldsDeterminesString(de.dName[..], s);
    nm := Take(s, cap - 1);
  }

  /** One round of the second pass: readdir, and for an entry whose d_name
      does not start with '.' the malloc of its buffer and the STRNCPY into
      it. `ok` is false when that malloc fails. `seen` is what the pass has
      read so far, and `names[..i]` what it has kept of it. */
  method CollectOne(d: Dir, de: Dirent, names: array<string>, i: nat, cap: nat, alloc: nat -> bool,
                    ghost seen: seq<FindData>)
    returns (got: bool, ok: bool, i': nat, ghost e: FindData)
    requires cap >= 1 && d.Valid() && d.live && de.dName.Length == NAME_MAX
    requires i + |Names(d.Stream(), cap)| == names.Length
    requires names[..i] == Names(seen, cap) && AllocsOk(alloc, i)
    modifies d, de, de.dName, names
    ensures d.Valid() && d.live
    ensures got <==> old(d.Stream()) != []
    ensures !got ==> d.Stream() == [] && ok && i' == i && names[..i] == Names(seen, cap)
    ensures got ==> old(d.Stream()) == [e] + d.Stream()
    ensures got && ok ==> && i' + |Names(d.Stream(), cap)| == names.Length
                          && names[..i'] == Names(seen + [e], cap)
                          && AllocsOk(alloc, i')
    ensures !ok ==> got && i' == i < names.Length && !NameAllocOk(alloc, i)
  {
    var listed;
    got, listed, e := ReadListed(d, de);
    ok := true;
    i' := i;
    if !got {
      return;
    }
    NamesHead(e, d.Stream(), cap);
    KeepOne(seen, e, cap);
    if listed {
      if !NameAllocOk(alloc, i) {
        ok := false;
        return;
      }
      var nm := CopyName(de, e, cap);
      Store(names, i, nm);
      AllocsOkStep(alloc, i);
      i' := i + 1;
    }
  }

  lemma SliceAll<T>(a: seq<T>, n: nat, b: seq<T>)
    requires n == |a| && a[..n] == b
    ensures a == b
  {
  }

  /** `a[i] = x`, seen as extending the filled prefix `a[..i]`. */
  method Store<T>(a: array<T>, i: nat, x: T)
    requires i < a.Length
    modifies a
    ensures a[..i + 1] == old(a[..i]) + [x]
  {
    a[i] := x;
    assert a[..i + 1] == old(a[..i]) + [x];
  }

  /** The state of the second pass after reading `seen` out of the
      stream `s0`: the handle is live, the rest of `s0` is still to come,
      the array has room for exactly the names left, `names[..i]` holds the
      names kept so far, and their mallocs all succeeded. */
  ghost predicate Collecting(d: Dir, names: array<string>, i: nat, seen: seq<FindData>,
                             s0: seq<FindData>, cap: nat, alloc: nat -> bool)
    reads d, names
    requires cap >= 1
  {
    && d.Valid() && d.live
    && s0 == seen + d.Stream()
    && i + |Names(d.Stream(), cap)| == names.Length
    && names[..i] == Names(seen, cap)
    && AllocsOk(alloc, i)
  }

  /** One round of the second pass, stated on `Collecting`: it either
      keeps the pass going on a shorter stream, or ends it with every name
      stored, or stops at the failed malloc. */
  method CollectStep(d: Dir, de: Dirent, names: array<string>, i: nat, cap: nat, alloc: nat -> bool,
                     ghost seen: seq<FindData>, ghost s0: seq<FindData>)
    returns (got: bool, ok: bool, i': nat, ghost seen': seq<FindData>)
    requires cap >= 1 && de.dName.Length == NAME_MAX && Collecting(d, names, i, seen, s0, cap, alloc)
    modifies d, de, de.dName, names
    ensures d.Valid() && d.live
    ensures got && ok ==> Collecting(d, names, i', seen', s0, cap, alloc) && |d.Stream()| < old(|d.Stream()|)
    ensures !got ==> ok && i' == names.Length && names[..] == Names(s0, cap) && AllocsOk(alloc, names.Length)
    ensures !ok ==> i' < names.Length && !NameAllocOk(alloc, i')
  {
    ghost var e;
    got, ok, i', e := CollectOne(d, de, names, i, cap, alloc, seen);
    seen' := seen + [e];
    if !got {
      assert seen == s0;
      SliceAll(names[..], i, Names(seen, cap));
      return;
    }
    if ok {
      Regroup(seen, e, d.Stream());
    }
  }

  /** The second pass of getFileList, after rewinddir: a buffer for every
      entry whose d_name does not start with '.', filled with its name. It
      stops at the first failed malloc, with `i` buffers filled. */
  method CollectPass(d: Dir, de: Dirent, names: array<string>, cap: nat, alloc: nat -> bool)
    returns (i: nat, ok: bool)
    requires cap >= 1 && d.Valid() && d.live && de.dName.Length == NAME_MAX
    requires names.Length == |Names(d.Stream(), cap)|
    modifies d, de, de.dName, names
    ensures d.Valid() && d.live
    ensures ok <==> AllocsOk(alloc, names.Length)
    ensures ok ==> i == names.Length && names[..] == Names(old(d.Stream()), cap)
    ensures !ok ==> i < names.Length && !NameAllocOk(alloc, i)
  {
    ghost var s0 := d.Stream();
    ghost var seen: seq<FindData> := [];
    i := 0;
    while true
      invariant Collecting(d, names, i, seen, s0, cap, alloc)
      decreases |d.Stream()|
    {
      var got;
      got, ok, i, seen := CollectStep(d, de, names, i, cap, alloc, seen, s0);
      if !got || !ok {
        return;
      }
    }
  }

  /** `for (k = 0; k < i; k++) free(filenames[k])` on the failure path:
      `held` counts the buffers still allocated; the loop releases the `i`
      name buffers. */
  method FreeNames(names: array<string>, i: nat, ghost held: nat) returns (ghost left: nat)
    requires i <= names.Length && i <= held
    ensures left == held - i
  {
    left := held;
    var k := 0;
    while k < i
      invariant k <= i && left == held - k
    {
      left := left - 1;
      k := k + 1;
    }
  }

  /** The part of getFileList between a successful opendir and the
      return: count, malloc, rewinddir, collect, closedir, qsort. The
      result is what `Collected` says of the handle's stream; on NULL
      nothing stays allocated, and the handle is closed either way. */
  method ListOpen(d: Dir, fs: FileSystem, cap: nat, alloc: nat -> bool, de: Dirent)
    returns (filenames: array?<string>, count: nat, ghost held: nat)
    requires cap >= 1 && d.Valid() && d.live && de.dName.Length == NAME_MAX
    requires WellFormed(fs(d.pattern)) && d.Pending() == fs(d.pattern)
    modifies d, de, de.dName
    ensures var l := Collected(Names(old(d.Stream()), cap), alloc);
            && (filenames == null <==> l.None?)
            && (filenames == null ==> count == 0 && held == 0)
            && (filenames != null ==> fresh(filenames) && filenames[..] == l.value
                                      && count == filenames.Length && held == 1 + count)
    ensures !d.live && !d.searching
  {
    count := 0;
    held := 0;
    filenames := null;
    ghost var s0 := d.Stream();
    ghost var names := Names(s0, cap);
    var i := CountPass(d, de, cap);
    if i > 0 {
      if !alloc(0) {
        var _ := CloseDir(d);
        return;
      }
      var arr := new string[i](_ => "");
      held := 1;
      RewindDir(d, fs);
      assert d.Stream() == s0;
      var ok;
      i, ok := CollectPass(d, de, arr, cap, alloc);
      held := held + i;
      if !ok {
        held := FreeNames(arr, i, held);
        held := held - 1;
        var _ := CloseDir(d);
        return;
      }
      filenames := arr;
    }
    var _ := CloseDir(d);
    count := i;
    if filenames != null && i > 1 {
      QSort(filenames);
    } else if filenames != null {
      SortShort(names);
    }
  }

  /** getFileList once the directory is resolved: opendir, then the two
      passes. NULL (with a count of 0) when opendir fails, nothing is
      listed or a malloc fails, and then nothing stays allocated; otherwise
      the array and its `count` name buffers are the caller's. The DIR
      handle, when it was allocated, ends up closed. */
  method ListDirectory(path: string, cap: nat, fs: FileSystem, dirAllocOk: bool, alloc: nat -> bool,
                       de: Dirent)
    returns (filenames: array?<string>, count: nat, ghost handle: Dir?, ghost held: nat)
    requires cap >= 1 && WellFormed(fs(MakePattern(path))) && de.dName.Length == NAME_MAX
    modifies de, de.dName
    ensures var l := Listing(path, cap, fs, dirAllocOk, alloc);
            && (filenames == null <==> l.None?)
            && (filenames == null ==> count == 0 && held == 0)
            && (filenames != null ==> fresh(filenames) && filenames[..] == l.value
                                      && count == filenames.Length && held == 1 + count)
    ensures handle != null <==> dirAllocOk
    ensures handle != null ==> fresh(handle) && !handle.live && !handle.searching
  {
    var d;
    d, handle := OpenDir(path, fs, dirAllocOk);
    if d == null {
      return null, 0, handle, 0;
    }
    filenames, count, held := ListOpen(d, fs, cap, alloc, de);
  }

  /** getFileList(dir, &count): NULL for NULL or a directory
      getFileLocation cannot resolve, otherwise the listing of the
      resolved path. */
  method GetFileList(r: Resolver, dir: Option<string>, stat: string -> bool, fs: FileSystem,
                     dirAllocOk: bool, alloc: nat -> bool, de: Dirent)
    returns (filenames: array?<string>, count: nat, ghost handle: Dir?, ghost held: nat)
    requires r.Valid() && (dir.Some? ==> NoNul(dir.value))
    requires forall p :: WellFormed(fs(p))
    requires de.dName.Length == NAME_MAX
    modifies r.resolved, r.pathA, r.pathB, r.pathC, r.pathD, de, de.dName
    ensures var l := FileList(dir, r.cap, stat, fs, dirAllocOk, alloc);
            && (filenames == null <==> l.None?)
            && (filenames == null ==> count == 0 && held == 0)
            && (filenames != null ==> fresh(filenames) && filenames[..] == l.value
                                      && count == filenames.Length && held == 1 + count)
    ensures handle != null ==> fresh(handle) && !handle.live && !handle.searching
  {
    handle := null;
    if dir.None? {
      return null, 0, null, 0;
    }
    var loc := r.GetFileLocation(dir, stat);
    if loc == null {
      return null, 0, null, 0;
    }
    ghost var res := Resolve(dir.value, r.cap, stat);
    HoldsDeterminesString(loc[..], res.value);
    var path := StringOf(loc);
    HoldsDeterminesString(loc[..], path);
    assert path == res.value;
    filenames, count, handle, held := ListDirectory(path, r.cap, fs, dirAllocOk, alloc, de);
  }
}
