/** Save-folder selection of the Xbox build (`createSaveFolder`): try a
    fixed list of folders in order, make each one, give it a trailing '\\'
    and probe it for writing; the first that passes becomes `app.saveDir`.
    CreateDirectoryA, _mkdir and the probe's fopen are oracles. */
module Win32Init {
  import opened CStrings

  /** The folders tried, in order. */
  const SAVE_CANDIDATES: seq<string> :=
    ["T:\\waterCloset", "E:\\UDATA\\AAAA0001\\00000001", "E:\\WaterCloset"]

  /** The file is_writable_dir creates in the folder. */
  const PROBE_NAME: string := "__probe__.tmp"

  /** ensure_trailing_slash on a string in a buffer of `cap` characters: a
      '\\' is appended when the string is non-empty, does not end in '\\'
      already, and the result and its terminator fit. */
  function TrailingSlashed(s: string, cap: nat): (r: string)
    ensures r == s || r == s + ['\\']
    ensures r == s + ['\\'] <==> |s| > 0 && s[|s| - 1] != '\\' && |s| + 1 < cap
    ensures |s| > 0 && |s| + 1 < cap ==> r[|r| - 1] == '\\'
    ensures |s| < cap ==> |r| < cap
    ensures NoNul(s) ==> NoNul(r)
  {
    if |s| > 0 && s[|s| - 1] != '\\' && |s| + 1 < cap then s + ['\\'] else s
  }

  /** Adding the trailing separator twice is the same as adding it once. */
  lemma TrailingSlashIdempotent(s: string, cap: nat)
    ensures TrailingSlashed(TrailingSlashed(s, cap), cap) == TrailingSlashed(s, cap)
  {
    var r := TrailingSlashed(s, cap);
    if r != s {
      assert r[|r| - 1] == '\\';
    }
  }

  /** Only '\\' counts as a separator here: a path ending in '/' still gets
      a '\\' after it. */
  lemma ForwardSlashStillExtended(s: string, cap: nat)
    requires |s| > 0 && s[|s| - 1] == '/' && |s| + 1 < cap
    ensures TrailingSlashed(s, cap) == s + "\\"
  {
  }

  /** ensure_trailing_slash(s, cap) on the buffer holding `s`. */
  method EnsureTrailingSlash(buf: array<char>, cap: nat, ghost s: string)
    requires cap <= buf.Length && NoNul(s) && Holds(buf[..], s) && |s| < cap
    modifies buf
    ensures Holds(buf[..], TrailingSlashed(s, cap))
    ensures TrailingSlashed(s, cap) == s ==> buf[..] == old(buf[..])
    ensures forall j :: |s| + 2 <= j < buf.Length ==> buf[j] == old(buf[j])
  {
    var n := StrlenOf(buf);
    HoldsDeterminesString(buf[..], s);
    if n > 0 && buf[n - 1] != '\\' && n + 1 < cap {
      buf[n] := '\\';
      buf[n + 1] := NUL;
      assert buf[..n + 1] == s + ['\\'];
    }
  }

  /** The outcome of CreateDirectoryA or _mkdir on a path: the folder was
      made, it already existed (ERROR_ALREADY_EXISTS, EEXIST), or another
      error. */
  datatype DirResult = Made | Exists | Failed

  /** The folder is there after the call. */
  predicate Ready(d: DirResult) {
    d != Failed
  }

  /** try_make_dir: CreateDirectoryA first, _mkdir when that fails with an
      error other than "already exists". Success exactly when one of the two
      made the folder or found it there. */
  method TryMakeDir(path: string, createDir: string -> DirResult, mkdir: string -> DirResult)
    returns (ok: bool)
    ensures ok <==> Ready(createDir(path)) || Ready(mkdir(path))
  {
    var created := createDir(path);
    if created != Made {
      if created != Exists {
        var fallback := mkdir(path);
        if fallback == Failed {
          return false;
        }
      }
    }
    return true;
  }

  /** The probe file's path as x_snprintf leaves it in a buffer of `cap`
      characters. */
  function ProbePath(dir: string, cap: nat): (r: string)
    requires cap >= 1
    ensures |r| < cap && |r| <= |dir| + |PROBE_NAME| && r == (dir + PROBE_NAME)[..|r|]
    ensures |dir| + |PROBE_NAME| < cap ==> r == dir + PROBE_NAME
  {
    Take(dir + PROBE_NAME, cap - 1)
  }

  /** is_writable_dir: format the probe path, open it for writing; the
      folder is writable exactly when that fopen succeeds. */
  method IsWritableDir(dir: string, cap: nat, canWrite: string -> bool) returns (ok: bool)
    requires cap >= 1 && NoNul(dir)
    ensures ok == canWrite(ProbePath(dir, cap))
  {
    var probe := new char[cap];
    assert NoNul(PROBE_NAME);
    assert NoNul(dir + PROBE_NAME);
    var _ := XSnprintf(probe, cap, dir + PROBE_NAME);
    var p := StringOf(probe);
    TakeExcludes(dir + PROBE_NAME, cap - 1, NUL);
    HoldsDeterminesString(probe[..], ProbePath(dir, cap));
    HoldsDeterminesString(probe[..], p);
    ok := canWrite(p);
  }

  /** The folder path a candidate yields: cut to fit the buffer, with its
      trailing '\\'. */
  function Prepared(c: string, cap: nat): (r: string)
    requires cap >= 1
    ensures |r| < cap
  {
    TrailingSlashed(Take(c, cap - 1), cap)
  }

  /** A candidate passes: its folder can be made (or is there) and the
      probe in it can be written. */
  predicate Usable(c: string, cap: nat, createDir: string -> DirResult, mkdir: string -> DirResult,
                   canWrite: string -> bool)
    requires cap >= 1
  {
    var p := Take(c, cap - 1);
    (Ready(createDir(p)) || Ready(mkdir(p))) && canWrite(ProbePath(Prepared(c, cap), cap))
  }

  /** The index of the first candidate that passes, or `|cs|`. */
  function FirstUsable(cs: seq<string>, cap: nat, createDir: string -> DirResult,
                       mkdir: string -> DirResult, canWrite: string -> bool): (k: nat)
    requires cap >= 1
    ensures k <= |cs|
    ensures forall j :: 0 <= j < k ==> !Usable(cs[j], cap, createDir, mkdir, canWrite)
    ensures k < |cs| ==> Usable(cs[k], cap, createDir, mkdir, canWrite)
  {
    if cs == [] then 0
    else if Usable(cs[0], cap, createDir, mkdir, canWrite) then 0
    else 1 + FirstUsable(cs[1..], cap, createDir, mkdir, canWrite)
  }

  /** An index that passes after only failures is the first one. */
  lemma {:induction false} FirstUsableIs(cs: seq<string>, cap: nat, createDir: string -> DirResult,
                                         mkdir: string -> DirResult, canWrite: string -> bool, k: nat)
    requires cap >= 1 && k <= |cs|
    requires k < |cs| ==> Usable(cs[k], cap, createDir, mkdir, canWrite)
    requires forall j :: 0 <= j < k ==> !Usable(cs[j], cap, createDir, mkdir, canWrite)
    ensures FirstUsable(cs, cap, createDir, mkdir, canWrite) == k
  {
    if cs != [] && k > 0 {
      assert !Usable(cs[0], cap, createDir, mkdir, canWrite);
      forall j | 0 <= j < k - 1
        ensures !Usable(cs[1..][j], cap, createDir, mkdir, canWrite)
      {
        assert cs[1..][j] == cs[j + 1];
      }
      if k - 1 < |cs[1..]| {
        assert cs[1..][k - 1] == cs[k];
      }
      FirstUsableIs(cs[1..], cap, createDir, mkdir, canWrite, k - 1);
    }
  }

  /** `app.saveDir` after createSaveFolder: the first passing candidate,
      prepared, or the empty string (save to the current folder). */
  function SaveDir(cap: nat, createDir: string -> DirResult, mkdir: string -> DirResult,
                   canWrite: string -> bool): (r: string)
    requires cap >= 1
    ensures |r| < cap
  {
    var k := FirstUsable(SAVE_CANDIDATES, cap, createDir, mkdir, canWrite);
    if k < |SAVE_CANDIDATES| then Prepared(SAVE_CANDIDATES[k], cap) else ""
  }

  /** With room for the names, the save folder is empty exactly when no
      candidate passes, and otherwise is a candidate with a '\\' after it,
      every earlier candidate having failed. */
  lemma SaveDirChoice(cap: nat, createDir: string -> DirResult, mkdir: string -> DirResult,
                      canWrite: string -> bool)
    requires cap >= 2
    ensures var r := SaveDir(cap, createDir, mkdir, canWrite);
            && (r == "" <==> forall j :: 0 <= j < 3 ==> !Usable(SAVE_CANDIDATES[j], cap, createDir, mkdir, canWrite))
            && (r != "" ==> exists k :: 0 <= k < 3 && r == Prepared(SAVE_CANDIDATES[k], cap)
                             && Usable(SAVE_CANDIDATES[k], cap, createDir, mkdir, canWrite)
                             && forall j :: 0 <= j < k ==> !Usable(SAVE_CANDIDATES[j], cap, createDir, mkdir, canWrite))
            && (r != "" ==> r[|r| - 1] == '\\' || |r| + 1 == cap)
  {
    var k := FirstUsable(SAVE_CANDIDATES, cap, createDir, mkdir, canWrite);
    if k < 3 {
      PreparedNonEmpty(SAVE_CANDIDATES[k], cap);
    }
  }

  /** A candidate prepared in a buffer of two characters or more is not
      empty, and ends in '\' unless it fills the buffer. */
  lemma PreparedNonEmpty(c: string, cap: nat)
    requires cap >= 2 && c in SAVE_CANDIDATES
    ensures var r := Prepared(c, cap); r != "" && (r[|r| - 1] == '\\' || |r| + 1 == cap)
  {
    assert |c| > 0;
    assert |Take(c, cap - 1)| > 0;
  }

  /** Candidate paths are C strings. */
  lemma CandidatesNoNul()
    ensures forall i :: 0 <= i < |SAVE_CANDIDATES| ==> NoNul(SAVE_CANDIDATES[i])
  {
    assert NoNul(SAVE_CANDIDATES[0]) && NoNul(SAVE_CANDIDATES[1]) && NoNul(SAVE_CANDIDATES[2]);
  }

  /** createSaveFolder with `app.saveDir` as `saveDir` (MAX_FILENAME_LENGTH
      characters, here `cap`). It empties `saveDir`, then for each
      candidate in order copies it into a local buffer, makes the folder,
      appends the '\\' and probes it; the first that passes is copied into
      `saveDir` and ends the search. `tried` counts the candidates
      examined: none after the one chosen. */
  method CreateSaveFolder(saveDir: array<char>, cap: nat, createDir: string -> DirResult,
                          mkdir: string -> DirResult, canWrite: string -> bool)
    returns (ghost tried: nat)
    requires cap >= 1 && saveDir.Length == cap
    modifies saveDir
    ensures Holds(saveDir[..], SaveDir(cap, createDir, mkdir, canWrite))
    ensures var k := FirstUsable(SAVE_CANDIDATES, cap, createDir, mkdir, canWrite);
            tried == if k < |SAVE_CANDIDATES| then k + 1 else |SAVE_CANDIDATES|
  {
    CandidatesNoNul();
    saveDir[0] := NUL;
    var i := 0;
    while i < |SAVE_CANDIDATES|
      invariant i <= |SAVE_CANDIDATES|
      invariant forall j :: 0 <= j < i ==> !Usable(SAVE_CANDIDATES[j], cap, createDir, mkdir, canWrite)
      invariant saveDir[0] == NUL
    {
      var found := TryCandidate(saveDir, SAVE_CANDIDATES[i], cap, createDir, mkdir, canWrite);
      if found {
        FirstUsableIs(SAVE_CANDIDATES, cap, createDir, mkdir, canWrite, i);
        return i + 1;
      }
      i := i + 1;
    }
    FirstUsableIs(SAVE_CANDIDATES, cap, createDir, mkdir, canWrite, i);
    saveDir[0] := NUL;
    assert Holds(saveDir[..], "");
    tried := i;
  }

  /** One round of createSaveFolder's loop. When the candidate passes,
      STRNCPY copies the prepared path into `saveDir`; otherwise `saveDir`
      is left alone. */
  method TryCandidate(saveDir: array<char>, c: string, cap: nat, createDir: string -> DirResult,
                      mkdir: string -> DirResult, canWrite: string -> bool)
    returns (found: bool)
    requires cap >= 1 && saveDir.Length == cap && NoNul(c)
    modifies saveDir
    ensures found <==> Usable(c, cap, createDir, mkdir, canWrite)
    ensures found ==> Holds(saveDir[..], Prepared(c, cap))
    ensures !found ==> saveDir[..] == old(saveDir[..])
  {
    var path := new char[cap];
    StrNCpyTerminated(path, c, cap);
    ghost var p := Take(c, cap - 1);
    TakeExcludes(c, cap - 1, NUL);
    var cut := StringOf(path);
    HoldsDeterminesString(path[..], p);
    HoldsDeterminesString(path[..], cut);
    var made := TryMakeDir(cut, createDir, mkdir);
    if !made {
      return false;
    }
    EnsureTrailingSlash(path, cap, p);
    var dir := StringOf(path);
    HoldsDeterminesString(path[..], Prepared(c, cap));
    HoldsDeterminesString(path[..], dir);
    var writable := IsWritableDir(dir, cap, canWrite);
    if !writable {
      return false;
    }
    StrNCpyTerminated(saveDir, dir, cap);
    return true;
  }
}
