/** Slash-separated paths. */
module Paths {
  import opened Prelude

  /** `a` is a directory on the way to `p`. */
  predicate Ancestor(a: string, p: string) {
    |a| < |p| && p[|a|] == '/' && p[..|a|] == a
  }

  /** Cuts at every separator; there is always at least one part. */
  function SplitOn(s: string, separator: char): (parts: seq<string>)
    ensures |parts| >= 1
    ensures forall p | p in parts :: separator !in p
  {
    if s == "" then [""]
    else
      var rest := SplitOn(s[1..], separator);
      if s[0] == separator then [""] + rest else [[s[0]] + rest[0]] + rest[1..]
  }

  function Split(path: string): (parts: seq<string>)
    ensures |parts| >= 1
    ensures forall p | p in parts :: '/' !in p
  {
    SplitOn(path, '/')
  }

  function Join(parts: seq<string>): string
    requires parts != []
  {
    if |parts| == 1 then parts[0] else Join(parts[..|parts| - 1]) + "/" + parts[|parts| - 1]
  }

  lemma {:induction false} JoinFront(parts: seq<string>)
    requires |parts| > 1
    ensures Join(parts) == parts[0] + "/" + Join(parts[1..])
  {
    if |parts| > 2 {
      JoinFront(parts[..|parts| - 1]);
      assert parts[..|parts| - 1][1..] == parts[1..][..|parts| - 2];
    }
  }

  /** Joining the segments gives the path back. */
  lemma {:induction false} JoinSplit(path: string)
    ensures Join(Split(path)) == path
  {
    if path != "" {
      var rest, parts := Split(path[1..]), Split(path);
      JoinSplit(path[1..]);
      if |parts| > 1 {
        JoinFront(parts);
        assert path[0] == '/' ==> parts[1..] == rest;
        if path[0] != '/' {
          assert |rest| > 1;
          JoinFront(rest);
          assert parts[1..] == rest[1..];
        }
      }
    }
  }

  /** Non-empty, relative and already in its cleaned form; the lone ".." passes too. */
  predicate ValidPath(path: string) {
    path == ".." || forall part | part in Split(path) :: part != "" && part != "." && part != ".."
  }

  lemma {:induction false} SplitAtSeparator(a: string, separator: char, b: string)
    ensures SplitOn(a + [separator] + b, separator) == SplitOn(a, separator) + SplitOn(b, separator)
  {
    var whole := a + [separator] + b;
    if a == "" {
      assert whole[1..] == b;
    } else {
      assert whole[1..] == a[1..] + [separator] + b && whole[0] == a[0];
      SplitAtSeparator(a[1..], separator, b);
      PartsInFront(a[0], SplitOn(a[1..], separator), SplitOn(b, separator));
    }
  }

  lemma PartsInFront(c: char, parts: seq<string>, more: seq<string>)
    requires parts != []
    ensures [""] + (parts + more) == ([""] + parts) + more
    ensures [[c] + (parts + more)[0]] + (parts + more)[1..] == ([[c] + parts[0]] + parts[1..]) + more
  {
  }

  lemma {:induction false} NoSeparatorSplit(s: string, separator: char)
    requires separator !in s
    ensures SplitOn(s, separator) == [s]
  {
    if s != "" {
      NoSeparatorSplit(s[1..], separator);
      assert s[0] in s && s == [s[0]] + s[1..];
    }
  }

  /** The characters from `i` up to `j` stand between two separators or ends of the string. */
  predicate SegmentAt(s: string, separator: char, i: int, j: int) {
    && 0 <= i <= j <= |s| && separator !in s[i..j]
    && (i == 0 || s[i - 1] == separator) && (j == |s| || s[j] == separator)
  }

  lemma SegmentMoves(s: string, separator: char, i: int, j: int)
    requires s != "" && SegmentAt(s[1..], separator, i, j) && (i > 0 || s[0] == separator)
    ensures SegmentAt(s, separator, i + 1, j + 1) && s[i + 1..j + 1] == s[1..][i..j]
  {
    assert s[i + 1..j + 1] == s[1..][i..j];
  }

  lemma HeadGrows(s: string, separator: char, j: int)
    requires s != "" && SegmentAt(s[1..], separator, 0, j) && s[0] != separator
    ensures SegmentAt(s, separator, 0, j + 1) && s[0..j + 1] == [s[0]] + s[1..][0..j]
  {
    assert s[0..j + 1] == [s[0]] + s[1..][0..j];
  }

  /** Every part stands between two separators. */
  lemma {:induction false} PartStands(s: string, separator: char, k: nat) returns (i: nat)
    requires k < |SplitOn(s, separator)|
    ensures var part := SplitOn(s, separator)[k];
      SegmentAt(s, separator, i, i + |part|) && s[i..i + |part|] == part
    ensures k == 0 <==> i == 0
  {
    i := 0;
    if s != "" && (s[0] != separator || k > 0) {
      var from := if s[0] == separator then k - 1 else k;
      var part := SplitOn(s[1..], separator)[from];
      var before := PartStands(s[1..], separator, from);
      if k > 0 {
        assert SplitOn(s, separator)[k] == part;
        i := before + 1;
        SegmentMoves(s, separator, before, before + |part|);
      } else {
        HeadGrows(s, separator, |part|);
        assert SplitOn(s, separator)[0] == [s[0]] + part;
      }
    }
  }

  lemma HeadIn(s: string, j: int)
    requires 0 < j <= |s|
    ensures s[0] in s[0..j]
  {
    assert s[0..j][0] == s[0];
  }

  /** Whatever stands between two separators is a part. */
  lemma {:induction false} SegmentIsPart(s: string, separator: char, i: int, j: int) returns (k: nat)
    requires SegmentAt(s, separator, i, j)
    ensures k < |SplitOn(s, separator)| && SplitOn(s, separator)[k] == s[i..j]
    ensures k == 0 <==> i == 0
  {
    k := 0;
    if s != "" {
      var rest, parts := SplitOn(s[1..], separator), SplitOn(s, separator);
      if i > 0 {
        assert s[1..][i - 1..j - 1] == s[i..j];
        k := SegmentIsPart(s[1..], separator, i - 1, j - 1);
        if s[0] == separator {
          assert parts[k + 1] == rest[k];
          k := k + 1;
        } else {
          assert parts[k] == rest[k];
        }
      } else if s[0] == separator {
        if j > 0 { HeadIn(s, j); }
      } else {
        assert s[1..][0..j - 1] == s[1..j] && s[0..j] == [s[0]] + s[1..j];
        k := SegmentIsPart(s[1..], separator, 0, j - 1);
      }
    }
  }

  /** What a valid path is in characters: no empty segment, no "." and no ".." anywhere, at the start, inside or at the
      end. */
  predicate Canonical(path: string) {
    && path != "" && path != "."
    && path[0] != '/' && path[|path| - 1] != '/'
    && !("./" <= path) && !("../" <= path)
    && !Ends(path, "/.") && !Ends(path, "/..")
    && forall i | 0 <= i < |path| :: !("//" <= path[i..]) && !("/./" <= path[i..]) && !("/../" <= path[i..])
  }

  predicate Ends(s: string, suffix: string) {
    |suffix| <= |s| && s[|s| - |suffix|..] == suffix
  }

  lemma ValidSegment(path: string, i: int, j: int)
    requires ValidPath(path) && path != ".." && SegmentAt(path, '/', i, j)
    ensures path[i..j] != "" && path[i..j] != "." && path[i..j] != ".."
  {
    var k := SegmentIsPart(path, '/', i, j);
    assert Split(path)[k] in Split(path);
  }

  lemma ValidIsCanonical(path: string)
    requires ValidPath(path)
    ensures Canonical(path)
  {
    if path != ".." {
      if path == "" || path == "." {
        ValidSegment(path, 0, |path|);
      }
      var n := |path|;
      if path[0] == '/' { ValidSegment(path, 0, 0); }
      if path[n - 1] == '/' { ValidSegment(path, n, n); }
      if "./" <= path { ValidSegment(path, 0, 1); }
      if "../" <= path { ValidSegment(path, 0, 2); }
      if Ends(path, "/.") { ValidSegment(path, n - 1, n); }
      if Ends(path, "/..") { ValidSegment(path, n - 2, n); }
      forall i | 0 <= i < n ensures !("//" <= path[i..]) && !("/./" <= path[i..]) && !("/../" <= path[i..]) {
        InnerSegments(path, i);
      }
    }
  }

  lemma InnerSegments(path: string, i: nat)
    requires ValidPath(path) && path != ".." && i < |path|
    ensures !("//" <= path[i..]) && !("/./" <= path[i..]) && !("/../" <= path[i..])
  {
    if "//" <= path[i..] {
      assert path[i + 1] == path[i..][1];
      ValidSegment(path, i + 1, i + 1);
    }
    if "/./" <= path[i..] {
      assert path[i + 1] == path[i..][1] && path[i + 2] == path[i..][2];
      ValidSegment(path, i + 1, i + 2);
    }
    if "/../" <= path[i..] {
      assert path[i + 1] == path[i..][1] && path[i + 2] == path[i..][2] && path[i + 3] == path[i..][3];
      ValidSegment(path, i + 1, i + 3);
    }
  }

  /** The accepted paths are those that no such character sequence spoils. */
  lemma ValidPathExact(path: string)
    ensures ValidPath(path) <==> Canonical(path)
  {
    if ValidPath(path) {
      ValidIsCanonical(path);
    }
    if Canonical(path) {
      CanonicalIsValid(path);
    }
  }

  /** What a path looks like around one of its segments. */
  lemma AroundSegment(path: string, i: int, j: int)
    requires SegmentAt(path, '/', i, j)
    ensures i == 0 && j == |path| ==> path == path[i..j]
    ensures i == 0 && j < |path| ==> path[i..j] + "/" <= path
    ensures i > 0 && j == |path| ==> Ends(path, "/" + path[i..j])
    ensures i > 0 && j < |path| ==> "/" + path[i..j] + "/" <= path[i - 1..]
  {
    if i > 0 {
      assert path[i - 1..] == "/" + path[i..j] + path[j..];
    }
  }

  /** A segment that is empty, "." or ".." spoils the path. */
  lemma SegmentIsGood(path: string, i: int, j: int)
    requires Canonical(path) && SegmentAt(path, '/', i, j)
    ensures path[i..j] != "" && path[i..j] != "." && (path != ".." ==> path[i..j] != "..")
  {
    AroundSegment(path, i, j);
  }

  lemma CanonicalIsValid(path: string)
    requires Canonical(path)
    ensures ValidPath(path)
  {
    forall part | part in Split(path) ensures part != "" && part != "." && (path != ".." ==> part != "..") {
      var k :| 0 <= k < |Split(path)| && Split(path)[k] == part;
      GoodPart(path, k);
    }
  }

  lemma GoodPart(path: string, k: nat)
    requires Canonical(path) && k < |Split(path)|
    ensures var part := Split(path)[k]; part != "" && part != "." && (path != ".." ==> part != "..")
  {
    var i := PartStands(path, '/', k);
    SegmentIsGood(path, i, i + |Split(path)[k]|);
  }

  /** Everything before the last slash, or nothing when there is none. */
  function Dir(path: string): (d: Option<string>)
    ensures d.None? ==> forall a :: !Ancestor(a, path)
    ensures d.Some? ==> Ancestor(d.value, path)
    ensures d.Some? ==> forall a :: Ancestor(a, path) <==> a == d.value || Ancestor(a, d.value)
  {
    if path == "" then None
    else
      var last := |path| - 1;
      if path[last] == '/' then
        assert forall a | Ancestor(a, path) && a != path[..last] :: Ancestor(a, path[..last]);
        Some(path[..last])
      else
        assert forall a :: Ancestor(a, path) <==> Ancestor(a, path[..last]) by {
          forall a ensures Ancestor(a, path) <==> Ancestor(a, path[..last]) {
            if |a| < last { assert path[..last][..|a|] == path[..|a|]; }
          }
        }
        Dir(path[..last])
  }

  const CONFLICT_MARK := ".l2sync-conflict-"
  const TEMPORARY_PREFIX := ".l2sync-apply-"

  /** A peer name or conflict suffix: one conservative file-name segment. */
  predicate ValidName(name: string) {
    && name != "" && name != "." && name != ".."
    && forall c | c in name :: 'a' <= c <= 'z' || 'A' <= c <= 'Z' || '0' <= c <= '9' || c == '-' || c == '_'
  }

  lemma ValidNameIsSegment(name: string)
    requires ValidName(name)
    ensures name !in {"", ".", ".."} && '/' !in name
  {
  }

  /** The name a losing version is kept under; the extension stays last. */
  function ConflictName(path: string, suffix: string): string {
    var cut := |path| - |Extension(path)|;
    path[..cut] + CONFLICT_MARK + suffix + path[cut..]
  }

  /** The extension starts with the last dot of the last segment, and only a last segment without one has none. */
  lemma {:induction false} ExtensionExact(path: string)
    ensures var e := Extension(path);
      && (e != "" ==> e[0] == '.' && '.' !in e[1..] && '/' !in e)
      && (e == "" ==> forall i | 0 <= i < |path| && path[i] == '.' :: exists j :: i < j < |path| && path[j] == '/')
  {
    if path != "" && path[|path| - 1] != '/' && path[|path| - 1] != '.' {
      var before := path[..|path| - 1];
      ExtensionExact(before);
      if Extension(before) == "" {
        StillNone(path);
      }
    } else if path != "" && path[|path| - 1] == '/' {
      assert forall i | 0 <= i < |path| && path[i] == '.' :: i < |path| - 1 && path[|path| - 1] == '/';
    }
  }

  lemma StillNone(path: string)
    requires path != "" && path[|path| - 1] != '.'
    requires var before := path[..|path| - 1];
      forall i | 0 <= i < |before| && before[i] == '.' :: exists j :: i < j < |before| && before[j] == '/'
    ensures forall i | 0 <= i < |path| && path[i] == '.' :: exists j :: i < j < |path| && path[j] == '/'
  {
    var before := path[..|path| - 1];
    forall i | 0 <= i < |path| && path[i] == '.' ensures exists j :: i < j < |path| && path[j] == '/' {
      assert before[i] == '.';
      var j :| i < j < |before| && before[j] == '/';
      assert path[j] == '/';
    }
  }

  /** A conflict copy stands beside its file, between the file's stem and its extension. */
  lemma ConflictNameBeside(path: string, suffix: string)
    requires '/' !in suffix
    ensures Dir(ConflictName(path, suffix)) == Dir(path)
    ensures exists stem ::
      && path == stem + Extension(path)
      && ConflictName(path, suffix) == stem + ".l2sync-conflict-" + suffix + Extension(path)
  {
    var e := Extension(path);
    var stem := path[..|path| - |e|];
    assert path == stem + e;
    ExtensionExact(path);
    NameInParts(stem, suffix, e);
    DirOfTail(stem, e);
    DirOfTail(stem, CONFLICT_MARK + suffix + e);
  }

  lemma NameInParts(stem: string, suffix: string, e: string)
    requires '/' !in suffix && '/' !in e
    ensures stem + (CONFLICT_MARK + suffix + e) == stem + CONFLICT_MARK + suffix + e
    ensures '/' !in CONFLICT_MARK + suffix + e
  {
  }

  lemma {:induction false} DirOfTail(stem: string, tail: string)
    requires '/' !in tail
    ensures Dir(stem + tail) == Dir(stem)
    decreases |tail|
  {
    if tail == "" {
      assert stem + tail == stem;
    } else {
      var shorter := tail[..|tail| - 1];
      assert tail[|tail| - 1] in tail;
      assert (stem + tail)[..|stem + tail| - 1] == stem + shorter;
      DirOfTail(stem, shorter);
    }
  }

  /** From the last dot of the last segment on, or nothing. */
  function Extension(path: string): (e: string)
    ensures |e| <= |path| && path[|path| - |e|..] == e
  {
    if path == "" || path[|path| - 1] == '/' then ""
    else if path[|path| - 1] == '.' then path[|path| - 1..]
    else
      var before := Extension(path[..|path| - 1]);
      if before == "" then "" else before + [path[|path| - 1]]
  }
}
