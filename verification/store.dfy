/** The artifact store: files under the configured downloads directory, one
    per published version at `id/major/minor/patch`. The filesystem is a map
    from paths (sequences of path segments) to file contents; the outcome of
    each filesystem call that can fail is a parameter. */
module Store {
  import opened Prelude
  import opened SemVer

  /** A path as its segments. An id is one segment: ids containing `/` or
      naming `.` or `..` are outside the model. */
  type Path = seq<string>

  /** The files present and their contents. */
  type Files = map<Path, Bytes>

  predicate IsDigit(c: char) {
    '0' <= c <= '9'
  }

  predicate AllDigits(s: string) {
    forall i | 0 <= i < |s| :: IsDigit(s[i])
  }

  /** The value of a string of decimal digits. */
  function DecimalValue(s: string): nat
    requires AllDigits(s)
  {
    if s == [] then 0
    else
      assert IsDigit(s[|s| - 1]);
      DecimalValue(s[..|s| - 1]) * 10 + (s[|s| - 1] as int - '0' as int)
  }

  /** `n.to_string()` for an unsigned integer: its decimal digits, no
      leading zero. */
  function Decimal(n: nat): (s: string)
    ensures 0 < |s| && AllDigits(s)
    ensures DecimalValue(s) == n
    ensures |s| > 1 ==> s[0] != '0'
  {
    if n < 10 then ['0' + n as char]
    else
      var prefix := Decimal(n / 10);
      var s := prefix + ['0' + (n % 10) as char];
      assert s[..|s| - 1] == prefix;
      s
  }

  /** Distinct numbers are written differently. */
  lemma DecimalInjective(a: nat, b: nat)
    ensures Decimal(a) == Decimal(b) <==> a == b
  {
    if Decimal(a) == Decimal(b) {
      assert DecimalValue(Decimal(a)) == DecimalValue(Decimal(b));
    }
  }

  /** The file `download` reads: `downloads_path.join(id)` joined with
      `"major/minor/patch"`. */
  function FilePath(root: Path, id: string, v: Version): (p: Path)
    ensures |p| == |root| + 4 && p[..|root|] == root && p[|root|] == id
    ensures AllDigits(p[|root| + 1]) && AllDigits(p[|root| + 2]) && AllDigits(p[|root| + 3])
    ensures DecimalValue(p[|root| + 1]) == v.major
    ensures DecimalValue(p[|root| + 2]) == v.minor
    ensures DecimalValue(p[|root| + 3]) == v.patch
  {
    root + [id, Decimal(v.major), Decimal(v.minor), Decimal(v.patch)]
  }

  /** The directory `upload` creates: `downloads_path.join(id)` joined with
      `"major/minor"`. */
  function UploadDir(root: Path, id: string, v: Version): (d: Path)
    ensures |d| == |root| + 3 && d[..|root|] == root && d[|root|] == id
    ensures AllDigits(d[|root| + 1]) && AllDigits(d[|root| + 2])
    ensures DecimalValue(d[|root| + 1]) == v.major
    ensures DecimalValue(d[|root| + 2]) == v.minor
  {
    root + [id, Decimal(v.major), Decimal(v.minor)]
  }

  /** The file `upload` writes: the patch number inside that directory. It is
      the file `download` reads. */
  function UploadFile(root: Path, id: string, v: Version): (p: Path)
    ensures p == FilePath(root, id, v)
    ensures p[..|p| - 1] == UploadDir(root, id, v)
  {
    UploadDir(root, id, v) + [Decimal(v.patch)]
  }

  /** Two versions share a file exactly when they have the same id and the
      same numeric core: no two published versions collide, and pre-release
      or build data do not reach the path. */
  lemma FilePathInjective(root: Path, id1: string, v1: Version, id2: string, v2: Version)
    ensures FilePath(root, id1, v1) == FilePath(root, id2, v2) <==> id1 == id2 && Core(v1) == Core(v2)
  {
    var p1 := FilePath(root, id1, v1);
    var p2 := FilePath(root, id2, v2);
    if p1 == p2 {
      var n := |root|;
      assert p1[n + 1] == p2[n + 1] && p1[n + 2] == p2[n + 2] && p1[n + 3] == p2[n + 3];
      DecimalInjective(v1.major, v2.major);
      DecimalInjective(v1.minor, v2.minor);
      DecimalInjective(v1.patch, v2.patch);
    }
  }

  /** Why a filesystem call failed. */
  datatype IoError = NotFoundError | OtherError

  /** `fs::read`: the contents, `NotFound` when there is no file, or another
      failure when `fails`. */
  function ReadFile(files: Files, p: Path, fails: bool): (r: Result<Bytes, IoError>)
    ensures r.Ok? <==> !fails && p in files
    ensures r.Ok? ==> r.value == files[p]
    ensures r == Err(NotFoundError) <==> !fails && p !in files
  {
    if fails then Err(OtherError)
    else if p in files then Ok(files[p])
    else Err(NotFoundError)
  }

  /** `fs::create_dir_all`; directories hold no contents in this model. */
  function CreateDirAll(dir: Path, fails: bool): (r: Result<(), IoError>)
    ensures r.Ok? <==> !fails
  {
    if fails then Err(OtherError) else Ok(())
  }

  /** `fs::write`: the file holds exactly `contents` afterwards and no other
      file changes; a failed write changes nothing. */
  function WriteFile(files: Files, p: Path, contents: Bytes, fails: bool): (r: Result<Files, IoError>)
    ensures r.Ok? <==> !fails
    ensures r.Ok? ==> p in r.value && r.value[p] == contents
    ensures r.Ok? ==> r.value.Keys == files.Keys + {p}
    ensures r.Ok? ==> forall q | q in files && q != p :: r.value[q] == files[q]
  {
    if fails then Err(OtherError) else Ok(files[p := contents])
  }
}
