/**
  The virtual files of .AppleDouble directories (lib/resource.c): extra_translate maps the path of a
  virtual file to the real one, undoing the names that readdir makes with add_fp.
 */
module Resource {
  import opened Strings

  const APPLEDOUBLE := ".AppleDouble"
  const FINDERINFO := ".finderinfo"
  const COMMENT := ".comment"
  const SERVERICON := "/.servericon"

  datatype Meta = None | Resource | Appledouble | FinderInfo | Comment | ServerIcon

  // ---- Naming ----

  /** The virtual directory of the directory d; the root is "". */
  function DirectoryName(d: string): string {
    d + "/" + APPLEDOUBLE
  }

  function Suffix(kind: Meta): string {
    match kind
    case FinderInfo => FINDERINFO
    case Comment => COMMENT
    case _ => ""
  }

  /** The virtual file for the given kind of data of the file n in d, by the suffixes of add_fp. */
  function FileName(d: string, n: string, kind: Meta): string {
    d + ("/" + APPLEDOUBLE + "/" + (n + Suffix(kind)))
  }

  /** The names that are translated back: d holds no ".AppleDouble" and n is one path component. */
  ghost predicate Nameable(d: string, n: string, kind: Meta) {
    && kind in {Resource, FinderInfo, Comment}
    && !Contains(d, APPLEDOUBLE) && '/' !in n
  }

  /** A file without a suffix whose own name looks like a virtual one. */
  predicate Ambiguous(n: string, kind: Meta) {
    kind == Resource && (n == APPLEDOUBLE || EndsWith(n, FINDERINFO) || EndsWith(n, COMMENT))
  }

  // ---- extra_translate ----

  /** Cutting the suffix off a path that is longer than it. */
  function Cut(newpath: string, suffix: string): (r: Option<string>)
    ensures r.Some? <==> |newpath| > |suffix| && EndsWith(newpath, suffix)
    ensures r.Some? ==> newpath == r.value + suffix
  {
    if |newpath| > |suffix| && newpath[|newpath| - |suffix|..] == suffix
    then Some(newpath[..|newpath| - |suffix|]) else Option.None
  }

  /**
    The kind of virtual file a path names and the real path, for any d, n and k (asked for any, so true of
    all): a virtual directory gives its directory, a virtual file gives its file, and a path without
    ".AppleDouble" is real.
   */
  method ExtraTranslate(showAppledouble: bool, path: string, ghost d: string, ghost n: string, ghost k: Meta)
    returns (kind: Meta, newpath: Option<string>)
    ensures !showAppledouble ==> kind == Meta.None && newpath.None?
    ensures showAppledouble && path == SERVERICON ==> kind == ServerIcon && newpath.None?
    ensures showAppledouble && path == DirectoryName(d) ==>
              kind == Appledouble && newpath == Some(if d == "" then "/" else d)
    ensures showAppledouble && Nameable(d, n, k) && path == FileName(d, n, k) ==>
              (kind == k && newpath == Some(d + "/" + n) <==> !Ambiguous(n, k))
    ensures !Contains(path, APPLEDOUBLE) && path != SERVERICON ==> kind == Meta.None && newpath.None?
  {
    hide Contains, EndsWith, LastIndexOf, PlaceFrom, FileName, DirectoryName, Cut;
    PlaceOfNone(path, APPLEDOUBLE);
    ghost var file := Nameable(d, n, k) && path == FileName(d, n, k);
    if file { FileNameParts(d, n, k); SuffixesAreCut(d, n, k); }
    DirectoryNameParts(d);
    kind, newpath := Meta.None, Option.None;
    if !showAppledouble { return; }
    if path == SERVERICON { return ServerIcon, Option.None; }
    if |path| < |APPLEDOUBLE| + 1 { return; }
    var p := LastIndexOf(path, '/');
    if p < 0 { return; }
    if path[p + 1..] == APPLEDOUBLE {
      ContainsAt(path, APPLEDOUBLE, p + 1);
      newpath := Some(if |path| == |APPLEDOUBLE| + 1 then "/" else path[..|path| - (|APPLEDOUBLE| + 1)]);
      return Appledouble, newpath;
    }
    p := PlaceFrom(path, APPLEDOUBLE, 0);
    if p < 0 { return; }
    var rest: string := *; // what follows the terminator, read when the path ends here
    if p + |APPLEDOUBLE| < |path| { rest := path[p + |APPLEDOUBLE| + 1..]; }
    var moved := path[..p] + rest;
    newpath := Cut(moved, FINDERINFO);
    if newpath.Some? { return FinderInfo, newpath; }
    newpath := Cut(moved, COMMENT);
    if newpath.Some? { return Comment, newpath; }
    return Resource, Some(moved);
  }

  // ---- Where the searches of extra_translate land ----

  lemma DirectoryNameParts(d: string)
    ensures var path := DirectoryName(d);
            && LastIndexOf(path, '/') == |d| && path[|d| + 1..] == APPLEDOUBLE
            && path[..|path| - (|APPLEDOUBLE| + 1)] == d && path != SERVERICON
  {
    LastIs(DirectoryName(d), '/', |d|);
  }

  lemma FileNameParts(d: string, n: string, k: Meta)
    requires Nameable(d, n, k)
    ensures var path := FileName(d, n, k);
            && LastIndexOf(path, '/') == |d| + 13 && path[|d| + 14..] == n + Suffix(k)
            && PlaceFrom(path, APPLEDOUBLE, 0) == |d| + 1
            && path[..|d| + 1] + path[|d| + 14..] == d + "/" + (n + Suffix(k))
            && path != SERVERICON && |path| > |d| + 13
  {
    hide LastIndexOf, PlaceFrom, Occurs;
    var path, m := FileName(d, n, k), n + Suffix(k);
    assert '/' !in m;
    JoinParts(d, m);
    LastIs(path, '/', |d| + 13);
    forall i | 0 <= i < |d| + 1 ensures !Occurs(path, APPLEDOUBLE, i) {
      if Occurs(path, APPLEDOUBLE, i) { NotBefore(d, m, i); }
    }
    PlaceIs(path, APPLEDOUBLE, |d| + 1);
  }

  lemma JoinParts(d: string, m: string)
    ensures var path := d + ("/" + APPLEDOUBLE + "/" + m);
            && path[|d| + 13] == '/' && path[|d| + 14..] == m && |path| == |d| + 14 + |m|
            && path[..|d| + 1] == d + "/" && Occurs(path, APPLEDOUBLE, |d| + 1) && path != SERVERICON
  {
    var path := d + ("/" + APPLEDOUBLE + "/" + m);
    assert path[|d| + 1..|d| + 13] == APPLEDOUBLE;
  }

  lemma NotBefore(d: string, m: string, i: nat)
    requires i <= |d| && Occurs(d + ("/" + APPLEDOUBLE + "/" + m), APPLEDOUBLE, i)
    ensures Contains(d, APPLEDOUBLE)
  {
    var tail := "/" + APPLEDOUBLE + "/" + m;
    var path := d + tail;
    assert path[i] == path[i..i + |APPLEDOUBLE|][0];
    OccursInHead(d, tail, APPLEDOUBLE, i);
  }

  lemma SuffixesAreCut(d: string, n: string, k: Meta)
    requires Nameable(d, n, k)
    ensures n + Suffix(k) == APPLEDOUBLE <==> k == Resource && n == APPLEDOUBLE
    ensures var moved := d + "/" + (n + Suffix(k));
            && (k == FinderInfo ==> Cut(moved, FINDERINFO) == Some(d + "/" + n))
            && (k == Comment ==> Cut(moved, FINDERINFO).None?
                                 && Cut(moved, COMMENT) == Some(d + "/" + n))
            && (k == Resource ==> moved == d + "/" + n)
            && (k == Resource ==> (Cut(moved, FINDERINFO).Some? <==> EndsWith(n, FINDERINFO))
                                  && (Cut(moved, COMMENT).Some? <==> EndsWith(n, COMMENT)))
  {
    var moved := d + "/" + (n + Suffix(k));
    if k == Resource {
      assert moved == d + "/" + n;
      EndOfJoin(d, n, FINDERINFO);
      EndOfJoin(d, n, COMMENT);
    } else {
      assert moved[|d| + 1 + |n|..] == Suffix(k) && moved[..|d| + 1 + |n|] == d + "/" + n;
      assert (n + Suffix(k))[|n + Suffix(k)| - 1] == moved[|moved| - 1] == Suffix(k)[|Suffix(k)| - 1];
    }
  }

  lemma EndOfJoin(d: string, n: string, w: string)
    requires '/' !in w && w != ""
    ensures EndsWith(d + "/" + n, w) <==> EndsWith(n, w)
  {
    var s := d + "/" + n;
    if |n| < |w| {
      if |s| >= |w| { assert s[|s| - |w|..|s|][|d| - (|s| - |w|)] == '/'; }
    } else {
      assert s[|s| - |w|..|s|] == n[|n| - |w|..];
    }
  }

  // ---- The names, letter by letter ----

  /** For every file in the root or in a directory outside: its three virtual files are under these names. */
  lemma VirtualNames(d: string, n: string)
    ensures DirectoryName(d) == d + "/.AppleDouble"
    ensures FileName(d, n, Resource) == d + "/.AppleDouble/" + n
    ensures FileName(d, n, FinderInfo) == d + "/.AppleDouble/" + n + ".finderinfo"
    ensures FileName(d, n, Comment) == d + "/.AppleDouble/" + n + ".comment"
  {
    assert n + "" == n;
  }

  /** And each is taken for what its name says. */
  method TranslateVirtual(d: string, n: string) returns (kinds: seq<Meta>, paths: seq<Option<string>>)
    requires !Contains(d, ".AppleDouble") && '/' !in n
    ensures |kinds| == |paths| == 4
    ensures kinds[0] == FinderInfo && paths[0] == Some(d + "/" + n)
    ensures kinds[1] == Comment && paths[1] == Some(d + "/" + n)
    ensures n != ".AppleDouble" && !EndsWith(n, ".finderinfo") && !EndsWith(n, ".comment") ==>
              kinds[2] == Resource && paths[2] == Some(d + "/" + n)
    ensures kinds[3] == ServerIcon && paths[3] == Option.None
  {
    hide Contains, EndsWith, FileName, DirectoryName;
    VirtualNames(d, n);
    var k0, p0 := ExtraTranslate(true, d + "/.AppleDouble/" + n + ".finderinfo", d, n, FinderInfo);
    var k1, p1 := ExtraTranslate(true, d + "/.AppleDouble/" + n + ".comment", d, n, Comment);
    var k2, p2 := ExtraTranslate(true, d + "/.AppleDouble/" + n, d, n, Resource);
    var k3, p3 := ExtraTranslate(true, "/.servericon", d, n, Resource);
    kinds, paths := [k0, k1, k2, k3], [p0, p1, p2, p3];
  }
}
