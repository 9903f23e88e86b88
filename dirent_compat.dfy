/** The dirent emulation over the Win32 native directory search: a `DIR`
    handle holds the search pattern, the native search (its handle and the
    entry it last produced) and a `first_read` flag; readdir hands out
    entries through one shared `dirent`. */
module DirentCompat {
  import opened CStrings
  import PathUtil

  const NAME_MAX: nat := 260

  /** WIN32_FIND_DATAA, reduced to the two fields readdir copies. */
  datatype FindData = FindData(cFileName: string, dwFileAttributes: bv32)

  /** The file system as the native search sees it: for a pattern, the
      entries FindFirstFileA and then FindNextFileA produce, in order. No
      entries means FindFirstFileA returns INVALID_HANDLE_VALUE. */
  type FileSystem = string -> seq<FindData>

  /** Native names are C strings. */
  predicate WellFormed(xs: seq<FindData>) {
    forall i :: 0 <= i < |xs| ==> NoNul(xs[i].cFileName)
  }

  /** strncat(dst, src, k): append at most `k` characters of `src`. */
  function StrNCat(dst: string, src: string, k: nat): string {
    dst + Take(src, k)
  }

  /** _dir_make_pattern(out, path): the path cut to NAME_MAX - 3 characters,
      a '\\' when the path is non-empty and the kept part does not end in a
      separator, then '*'. Neither strncat ever truncates, so the pattern
      and its terminator always fit in NAME_MAX characters. */
  function MakePattern(path: string): (r: string)
    ensures |r| < NAME_MAX && |r| > 0 && r[|r| - 1] == '*'
    ensures var kept := Take(path, NAME_MAX - 3);
            r[..|r| - 1] == kept || r[..|r| - 1] == kept + ['\\']
    ensures var kept := Take(path, NAME_MAX - 3);
            r[..|r| - 1] == kept + ['\\'] <==> |path| > 0 && !PathUtil.IsSep(kept[|kept| - 1])
  {
    var out := Take(path, NAME_MAX - 3);
    var out1 :=
      if |path| > 0 && !PathUtil.IsSep(out[|out| - 1]) then StrNCat(out, "\\", NAME_MAX - |out| - 1)
      else out;
    StrNCat(out1, "*", NAME_MAX - |out1| - 1)
  }

  /** A path that fits and does not end in a separator gets "\\*" appended. */
  lemma MakePatternPlain(path: string)
    requires 0 < |path| <= NAME_MAX - 3 && !PathUtil.IsSep(path[|path| - 1])
    ensures MakePattern(path) == path + "\\*"
  {
    var r := MakePattern(path);
    assert r == r[..|r| - 1] + [r[|r| - 1]];
  }

  /** The empty path gives just "*", a search of the current folder. */
  lemma MakePatternEmpty()
    ensures MakePattern("") == "*"
  {
    var e := MakePattern("");
    assert e == e[..|e| - 1] + [e[|e| - 1]];
  }

  /** readdir's skip test: the "." and ".." entries. */
  predicate IsDotEntry(e: FindData) {
    e.cFileName == "." || e.cFileName == ".."
  }

  /** The entries readdir hands out from a run of native entries. */
  function Visible(xs: seq<FindData>): (r: seq<FindData>)
    ensures |r| <= |xs|
    ensures forall i :: 0 <= i < |r| ==> !IsDotEntry(r[i]) && r[i] in xs
  {
    if xs == [] then []
    else if IsDotEntry(xs[0]) then Visible(xs[1..])
    else [xs[0]] + Visible(xs[1..])
  }

  /** Filtering commutes with concatenation: the stream of a listing is the
      stream of its parts. */
  lemma {:induction false} VisibleAppend(a: seq<FindData>, b: seq<FindData>)
    ensures Visible(a + b) == Visible(a) + Visible(b)
  {
    if a == [] {
      assert a + b == b;
    } else {
      assert (a + b)[1..] == a[1..] + b;
      VisibleAppend(a[1..], b);
    }
  }

  /** The entries readdir hands out from NUL-free native names are NUL-free. */
  lemma VisibleWellFormed(xs: seq<FindData>)
    requires WellFormed(xs)
    ensures WellFormed(Visible(xs))
  {
    var r := Visible(xs);
    forall i | 0 <= i < |r|
      ensures NoNul(r[i].cFileName)
    {
      var j :| 0 <= j < |xs| && xs[j] == r[i];
    }
  }

  /** The d_name field after readdir: the native name cut to NAME_MAX - 1
      characters and padded with terminators. */
  function DName(name: string): (r: seq<char>)
    ensures |r| == NAME_MAX
  {
    Padded(Take(name, NAME_MAX - 1), NAME_MAX)
  }

  /** d_name holds the truncated name as a C string, and starts with '.'
      exactly when the name does. */
  lemma DNameHolds(name: string)
    requires NoNul(name)
    ensures Holds(DName(name), Take(name, NAME_MAX - 1))
    ensures DName(name)[0] == '.' <==> |name| > 0 && name[0] == '.'
  {
    PaddedHolds(Take(name, NAME_MAX - 1), NAME_MAX);
  }

  /** The `static struct dirent de` readdir returns a pointer to. */
  class Dirent {
    const dName: array<char>
    var dType: bv32

    constructor ()
      ensures dName.Length == NAME_MAX && fresh(dName)
    {
      dName := new char[NAME_MAX](_ => NUL);
      dType := 0;
    }
  }

  /** A DIR handle. `searching` says whether `hFind` is a live search
      handle; the native search is the entry list it produces and the
      position of `ffd` in it. */
  class Dir {
    const pattern: string
    var searching: bool
    var listing: seq<FindData>
    var cursor: nat
    var ffd: FindData
    var firstRead: bool
    /** The handle has not been freed. */
    ghost var live: bool

    ghost predicate Valid()
      reads this
    {
      && (searching ==> cursor < |listing| && ffd == listing[cursor])
      && (firstRead ==> searching)
      && WellFormed(listing)
    }

    /** The native entries still to come: `ffd` itself when it has not been
        handed out yet, then what FindNextFileA will produce. */
    ghost function Pending(): (r: seq<FindData>)
      reads this
      requires Valid()
      ensures WellFormed(r)
    {
      if !searching then []
      else if firstRead then listing[cursor..]
      else listing[cursor + 1..]
    }

    /** The entries the coming readdir calls return, in order. */
    ghost function Stream(): (r: seq<FindData>)
      reads this
      requires Valid()
      ensures WellFormed(r)
    {
      VisibleWellFormed(Pending());
      Visible(Pending())
    }

    /** malloc + memset(0) + _dir_make_pattern. */
    constructor (pattern: string)
      ensures this.pattern == pattern && live
      ensures !searching && !firstRead && listing == [] && cursor == 0
    {
      this.pattern := pattern;
      searching := false;
      listing := [];
      cursor := 0;
      ffd := FindData("", 0);
      firstRead := false;
      live := true;
    }

    /** FindFirstFileA(pattern, &ffd). */
    method FindFirst(fs: FileSystem)
      requires !searching && WellFormed(fs(pattern))
      modifies this
      ensures listing == fs(pattern) && cursor == 0
      ensures searching <==> listing != []
      ensures searching ==> ffd == listing[0]
      ensures firstRead == old(firstRead) && live == old(live)
    {
      listing := fs(pattern);
      cursor := 0;
      searching := listing != [];
      if searching {
        ffd := listing[0];
      }
    }

    /** FindNextFileA(hFind, &ffd): fails on a dead handle and at the end of
        the listing, leaving `ffd` as it was. */
    method FindNext() returns (ok: bool)
      requires Valid()
      modifies this
      ensures Valid()
      ensures ok <==> old(searching) && old(cursor) + 1 < |listing|
      ensures cursor == (if ok then old(cursor) + 1 else old(cursor))
      ensures listing == old(listing) && searching == old(searching)
      ensures firstRead == old(firstRead) && live == old(live)
    {
      ok := searching && cursor + 1 < |listing|;
      if ok {
        cursor := cursor + 1;
        ffd := listing[cursor];
      }
    }

    /** FindClose(hFind). */
    method FindClose()
      modifies this
      ensures !searching
      ensures listing == old(listing) && cursor == old(cursor)
      ensures firstRead == old(firstRead) && live == old(live)
    {
      searching := false;
    }
  }

  /** opendir(path). A failed allocation gives NULL; so does a failed
      FindFirstFileA, after the handle has been freed. On success the first
      native entry waits in `ffd` with `first_read` set. */
  method OpenDir(path: string, fs: FileSystem, mallocOk: bool) returns (d: Dir?, ghost handle: Dir?)
    requires WellFormed(fs(MakePattern(path)))
    ensures d == null <==> !mallocOk || fs(MakePattern(path)) == []
    ensures mallocOk <==> handle != null
    ensures handle != null ==> fresh(handle) && (d == null ==> !handle.live && !handle.searching)
    ensures d != null ==>
              && d == handle && d.Valid() && d.live && d.firstRead
              && d.pattern == MakePattern(path) && d.Pending() == fs(d.pattern)
  {
    if !mallocOk {
      return null, null;
    }
    d := new Dir(MakePattern(path));
    handle := d;
    d.FindFirst(fs);
    if !d.searching {
      d.live := false;
      return null, handle;
    }
    d.firstRead := true;
  }

  /** The native step at the head of readdir: hand out `ffd` on the first
      read, otherwise advance with FindNextFileA. On success the entry now
      in `ffd` is the first of those that were pending. */
  method NextNative(d: Dir) returns (ok: bool)
    requires d.Valid()
    modifies d
    ensures d.Valid() && d.live == old(d.live) && !d.firstRead
    ensures ok <==> old(d.Pending()) != []
    ensures ok ==> old(d.Pending()) == [d.ffd] + d.Pending()
    ensures !ok ==> d.Pending() == []
  {
    if d.firstRead {
      d.firstRead := false;
      ok := true;
    } else {
      ok := d.FindNext();
    }
    if ok {
      assert d.listing[d.cursor..] == [d.ffd] + d.listing[d.cursor + 1..];
    }
  }

  /** The copy at the end of readdir: strncpy of NAME_MAX - 1 characters,
      the last character of d_name forced to the terminator, and the
      attributes as they are. */
  method CopyEntry(de: Dirent, e: FindData)
    requires de.dName.Length == NAME_MAX && NoNul(e.cFileName)
    modifies de, de.dName
    ensures de.dName[..] == DName(e.cFileName) && de.dType == e.dwFileAttributes
  {
    StrNCpy(de.dName, e.cFileName, NAME_MAX - 1);
    de.dName[NAME_MAX - 1] := NUL;
    de.dType := e.dwFileAttributes;
    assert de.dName[..] == de.dName[..NAME_MAX - 1] + [NUL];
  }

  /** readdir(d). The first call after open or rewind hands out `ffd`
      without advancing; later calls advance first. "." and ".." are
      skipped. The entry is copied into the shared `de`, whose d_name holds
      the name cut to NAME_MAX - 1 characters. NULL for a NULL handle and
      once the native search is exhausted. */
  method ReadDir(d: Dir?, de: Dirent) returns (ent: Dirent?)
    requires d != null ==> d.Valid() && d.live
    requires de.dName.Length == NAME_MAX
    modifies d, de, de.dName
    ensures ent == null || ent == de
    ensures d == null ==> ent == null
    ensures d != null ==> d.Valid() && d.live
    ensures d != null ==> (ent == null <==> old(d.Stream()) == [])
    ensures d != null && ent == null ==> d.Stream() == []
    ensures ent == null ==> de.dName[..] == old(de.dName[..]) && de.dType == old(de.dType)
    ensures ent != null ==>
              var e := old(d.Stream())[0];
              && d.Stream() == old(d.Stream())[1..]
              && de.dName[..] == DName(e.cFileName)
              && de.dType == e.dwFileAttributes
  {
    if d == null {
      return null;
    }
    ghost var s0 := d.Stream();
    while true
      invariant d.Valid() && d.live && d.Stream() == s0
      invariant de.dName[..] == old(de.dName[..]) && de.dType == old(de.dType)
      decreases |d.Pending()|
    {
      ghost var p := d.Pending();
      var ok := NextNative(d);
      if !ok {
        return null;
      }
      assert p[1..] == d.Pending();
      if d.ffd.cFileName == "." || d.ffd.cFileName == ".." {
        continue;
      }
      assert NoNul(p[0].cFileName);
      CopyEntry(de, d.ffd);
      return de;
    }
  }

  /** rewinddir(d): close the search and start it again from the saved
      pattern; `first_read` is set exactly when the restart succeeds. On an
      unchanged file system the handle then yields the same entries as
      after opendir. */
  method RewindDir(d: Dir?, fs: FileSystem)
    requires d != null ==> d.Valid() && d.live && WellFormed(fs(d.pattern))
    modifies d
    ensures d != null ==> d.Valid() && d.live
    ensures d != null ==> d.Pending() == fs(d.pattern) && (d.firstRead <==> fs(d.pattern) != [])
  {
    if d == null {
      return;
    }
    if d.searching {
      d.FindClose();
    }
    d.FindFirst(fs);
    d.firstRead := d.searching;
  }

  /** closedir(d): -1 for NULL; otherwise the search is closed, the handle
      freed, and the result 0. */
  method CloseDir(d: Dir?) returns (rc: int)
    requires d != null ==> d.live
    modifies d
    ensures d == null ==> rc == -1
    ensures d != null ==> rc == 0 && !d.live && !d.searching
  {
    if d == null {
      return -1;
    }
    if d.searching {
      d.FindClose();
    }
    d.live := false;
    return 0;
  }
}
