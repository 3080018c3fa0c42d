/** `recipe_image_file_path`: the storage name of an uploaded recipe image is
    `static/recipe/<uuid><ext>`, where `<ext>` is what `os.path.splitext`
    (POSIX flavour) returns for the uploaded file name. The uuid is an input. */
module ImagePath {

  /** Python's `s.rfind(c)`: the last index holding `c`, or -1. */
  function RFind(s: string, c: char): (r: int)
    ensures -1 <= r < |s|
    ensures r >= 0 ==> s[r] == c
    ensures forall k :: r < k < |s| ==> s[k] != c
  {
    if |s| == 0 then -1
    else if s[|s| - 1] == c then |s| - 1
    else RFind(s[..|s| - 1], c)
  }

  /** The leading-dots loop of `splitext`: some character of `p[from..to]`
      is not a dot. */
  function NonDotBetween(p: string, from: nat, to: nat): (b: bool)
    requires from <= to <= |p|
    ensures b <==> (exists k :: from <= k < to && p[k] != '.')
    decreases |p| - from
  {
    if from == to then false else p[from] != '.' || NonDotBetween(p, from + 1, to)
  }

  /** The last path component of `p` has a dot preceded, inside that
      component, by some character other than a dot. Leading dots alone
      (`.bashrc`, `..png`) do not start an extension. */
  ghost predicate HasExtension(p: string) {
    exists i, j :: 0 <= i < j < |p| && p[i] != '.' && p[j] == '.' && NoSlashFrom(p, i)
  }

  ghost predicate NoSlashFrom(p: string, i: nat) {
    forall k :: i <= k < |p| ==> p[k] != '/'
  }

  /** A well-formed extension: a dot followed by neither dots nor slashes. */
  predicate IsExtension(e: string) {
    |e| > 0 && e[0] == '.' && forall k :: 0 <= k < |e| ==> e[k] != '/' && (k > 0 ==> e[k] != '.')
  }

  /** `os.path.splitext(p)` for POSIX paths: a root and an extension that
      concatenate to `p`; the extension is empty exactly when the last path
      component has none. */
  function SplitExt(p: string): (r: (string, string))
    ensures r.0 + r.1 == p
    ensures r.1 == "" || IsExtension(r.1)
  {
    var sepIndex := RFind(p, '/');
    var dotIndex := RFind(p, '.');
    if dotIndex > sepIndex && NonDotBetween(p, sepIndex + 1, dotIndex) then
      (p[..dotIndex], p[dotIndex..])
    else
      (p, "")
  }

  /** `splitext` finds an extension exactly when the last path component
      has one. */
  lemma SplitExtFindsExtension(p: string)
    ensures SplitExt(p).1 != "" <==> HasExtension(p)
  {
    var sepIndex := RFind(p, '/');
    var dotIndex := RFind(p, '.');
    if HasExtension(p) {
      var i, j :| 0 <= i < j < |p| && p[i] != '.' && p[j] == '.' && NoSlashFrom(p, i);
      assert j <= dotIndex;
      assert sepIndex < i;
      assert NonDotBetween(p, sepIndex + 1, dotIndex);
    }
    if SplitExt(p).1 != "" {
      assert NonDotBetween(p, sepIndex + 1, dotIndex);
      var k :| sepIndex + 1 <= k < dotIndex && p[k] != '.';
      assert NoSlashFrom(p, k);
    }
  }

  /** `splitext` splits a root with a real stem in its last component from a
      well-formed extension exactly there. */
  lemma SplitExtOf(root: string, ext: string)
    requires IsExtension(ext)
    requires exists i :: 0 <= i < |root| && root[i] != '.' && NoSlashFrom(root, i)
    ensures SplitExt(root + ext) == (root, ext)
  {
    var p := root + ext;
    var i :| 0 <= i < |root| && root[i] != '.' && NoSlashFrom(root, i);
    assert p[i] == root[i] && p[|root|] == '.';
    assert NoSlashFrom(p, i);
    var sepIndex := RFind(p, '/');
    var dotIndex := RFind(p, '.');
    assert forall k :: |root| < k < |p| ==> p[k] == ext[k - |root|] != '.';
    assert dotIndex == |root|;
    assert sepIndex < i;
    assert NonDotBetween(p, sepIndex + 1, dotIndex);
  }

  /** A path without any dot has no extension. */
  lemma SplitExtNoDot(p: string)
    requires forall k :: 0 <= k < |p| ==> p[k] != '.'
    ensures SplitExt(p) == (p, "")
  {
  }

  /** `PurePath(name).suffix`: in the last path component, the tail from
      its last dot, unless that dot is the component's first or last
      character; otherwise empty. */
  function Suffix(name: string): (r: string)
    ensures r == "" || (2 <= |r| < |name| && r[0] == '.' && name[|name| - |r|..] == r)
    ensures r != "" <==> exists i :: LastComponentDot(name, i)
  {
    var base := RFind(name, '/') + 1;
    var dot := RFind(name, '.');
    if base < dot < |name| - 1 then
      assert LastComponentDot(name, dot);
      name[dot..]
    else
      assert forall i :: LastComponentDot(name, i) ==> i == dot;
      ""
  }

  /** `name[i]` is the last dot of the name, it is neither the first nor the
      last character of the last path component, and no `/` follows. */
  predicate LastComponentDot(name: string, i: int) {
    && 0 < i < |name| - 1 && name[i] == '.' && name[i - 1] != '/'
    && forall k :: i < k < |name| ==> name[k] != '.' && name[k] != '/'
  }

  /** `str.lower()` on the ASCII letters. */
  function LowerAscii(s: string): (r: string)
    ensures |r| == |s|
    ensures forall k :: 0 <= k < |s| ==> r[k] == if 'A' <= s[k] <= 'Z' then (s[k] as int + 32) as char else s[k]
  {
    if |s| == 0 then "" else LowerAscii(s[..|s| - 1]) + [if 'A' <= s[|s| - 1] <= 'Z' then (s[|s| - 1] as int + 32) as char else s[|s| - 1]]
  }

  /** Django's `validate_image_file_extension`: the suffix without its dot,
      lower-cased, is one of `imageExtensions`, the extensions the imaging
      library registers. */
  predicate ImageExtensionAllowed(name: string, imageExtensions: set<string>) {
    var suffix := Suffix(name);
    LowerAscii(if suffix == "" then "" else suffix[1..]) in imageExtensions
  }

  predicate IsHexDigit(c: char) {
    ('0' <= c <= '9') || ('a' <= c <= 'f')
  }

  /** The text of `uuid.uuid4()`: 32 lower-case hex digits in 8-4-4-4-12 groups. */
  predicate IsUuidText(u: string) {
    && |u| == 36
    && forall k :: 0 <= k < 36 ==>
         if k == 8 || k == 13 || k == 18 || k == 23 then u[k] == '-' else IsHexDigit(u[k])
  }

  const Directory: string := "static/recipe/"

  /** `recipe_image_file_path(instance, filename)` with the uuid it draws
      passed in. */
  function RecipeImageFilePath(uuid: string, filename: string): (path: string)
    requires IsUuidText(uuid)
    ensures |path| == |Directory| + 36 + |SplitExt(filename).1|
    ensures path[..|Directory|] == Directory
    ensures path[|Directory|..|Directory| + 36] == uuid
    ensures path[|Directory| + 36..] == SplitExt(filename).1
  {
    Directory + uuid + SplitExt(filename).1
  }

  /** The stored name keeps the uploaded file's extension: `splitext` of
      the path gives the same extension as `splitext` of the file name. */
  lemma PathKeepsExtension(uuid: string, filename: string)
    requires IsUuidText(uuid)
    ensures SplitExt(RecipeImageFilePath(uuid, filename)).1 == SplitExt(filename).1
  {
    var ext := SplitExt(filename).1;
    var root := Directory + uuid;
    assert RecipeImageFilePath(uuid, filename) == root + ext;
    if ext == "" {
      assert root + ext == root;
      assert forall k :: 0 <= k < |root| ==> root[k] != '.' by {
        forall k | 0 <= k < |root|
          ensures root[k] != '.'
        {
          if k >= |Directory| {
            assert root[k] == uuid[k - |Directory|];
          }
        }
      }
      SplitExtNoDot(root);
    } else {
      assert root[|Directory|] == uuid[0] && IsHexDigit(uuid[0]);
      assert NoSlashFrom(root, |Directory|) by {
        forall k | |Directory| <= k < |root|
          ensures root[k] != '/'
        {
          assert root[k] == uuid[k - |Directory|];
        }
      }
      SplitExtOf(root, ext);
    }
  }

  /** Distinct uuids give distinct storage names, whatever the file names. */
  lemma DistinctUuidsDistinctPaths(u1: string, u2: string, f1: string, f2: string)
    requires IsUuidText(u1) && IsUuidText(u2) && u1 != u2
    ensures RecipeImageFilePath(u1, f1) != RecipeImageFilePath(u2, f2)
  {
    var p1 := RecipeImageFilePath(u1, f1);
    var p2 := RecipeImageFilePath(u2, f2);
    assert p1[|Directory|..|Directory| + 36] != p2[|Directory|..|Directory| + 36];
  }

  /** The stem of the uploaded name never reaches the storage name: two file
      names with the same extension give the same path. */
  lemma StemIgnored(uuid: string, stem1: string, stem2: string, ext: string)
    requires IsUuidText(uuid) && IsExtension(ext)
    requires exists i :: 0 <= i < |stem1| && stem1[i] != '.' && NoSlashFrom(stem1, i)
    requires exists i :: 0 <= i < |stem2| && stem2[i] != '.' && NoSlashFrom(stem2, i)
    ensures RecipeImageFilePath(uuid, stem1 + ext) == RecipeImageFilePath(uuid, stem2 + ext)
    ensures RecipeImageFilePath(uuid, stem1 + ext) == Directory + uuid + ext
  {
    SplitExtOf(stem1, ext);
    SplitExtOf(stem2, ext);
  }
}
