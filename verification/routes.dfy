/** The request handlers of src/routes.rs: resolve (`GET /id?req=..&limit=..`),
    download (`GET /id/version`) and upload (`POST /id/version`, behind the
    `Authorization` key check), over a registry state made of the catalog
    and the downloads directory. Each storage call is one atomic step whose
    failure is a parameter. */
module Routes {
  import opened Prelude
  import opened SemVer
  import opened Streams
  import opened Errors
  import opened Db
  import opened Store

  /** The part of `Config` the handlers read. */
  datatype Config = Config(downloadsPath: Path, keys: set<string>)

  /** A successful reply. */
  datatype Reply =
    | Created
    | Conflict
    | Latest(found: Mod)
    | Listing(mods: seq<Mod>)
    | File(contents: Bytes)

  type Response = Result<Reply, Rejection>

  /** The catalog and the downloads directory. */
  datatype Registry = Registry(cat: Catalog, files: Files)

  // ---------------------------------------------------------------------
  // resolve

  /** The query string of a resolve request. */
  datatype ResolveQuery = ResolveQuery(req: Req, limit: u64)

  /** Deserialising the query: a missing `req` is `VersionReq::any()` and a
      missing `limit` is `one()`. */
  function ParseResolveQuery(req: Option<Req>, limit: Option<u64>): (q: ResolveQuery)
    ensures req.None? ==> forall v :: q.req(v)
    ensures req.Some? ==> q.req == req.value
    ensures limit.None? ==> q.limit == 1
    ensures limit.Some? ==> q.limit == limit.value
  {
    ResolveQuery(
      match req case Some(r) => r case None => Any,
      match limit case Some(n) => n case None => 1)
  }

  /** `resolve`: the id's matching versions as a descending stream, then the
      `limit` switch: 1 answers the first match or not-found, 0 collects them
      all, any other n collects the first n. */
  function Resolve(cat: Catalog, id: string, q: ResolveQuery, fault: Option<nat>): (r: Response)
    ensures r.Ok? ==> (r.value.Latest? <==> q.limit == 1)
    ensures r.Ok? ==> (r.value.Latest? || r.value.Listing?)
    ensures r == Err(NotFound) ==> q.limit == 1
    ensures r.Err? ==> r.error == NotFound || r.error == InternalServerError
  {
    var mods := MatchStream(cat, id, q.req, fault);
    if q.limit == 1 then
      match NextOrNfOrIse(Next(mods))
      case Ok(m) => Ok(Latest(m))
      case Err(e) => Err(e)
    else if q.limit == 0 then
      match ResultOrIse(TryCollect(mods))
      case Ok(ms) => Ok(Listing(ms))
      case Err(e) => Err(e)
    else
      match ResultOrIse(TryCollect(Take(mods, q.limit)))
      case Ok(ms) => Ok(Listing(ms))
      case Err(e) => Err(e)
  }

  /** The limit switch over the shared stream answers what `resolve_one`,
      `resolve_all` and `resolve_n` answer, with a missing match turned into
      not-found and a database failure into an internal error. */
  lemma ResolveAgreesWithCatalog(cat: Catalog, id: string, req: Req, limit: u64, fault: Option<nat>)
    ensures var r := Resolve(cat, id, ResolveQuery(req, limit), fault);
            limit == 1 ==>
              r == match ResolveOne(cat, id, req, fault)
                   case Ok(Some(m)) => Ok(Latest(m))
                   case Ok(None) => Err(NotFound)
                   case Err(_) => Err(InternalServerError)
    ensures var r := Resolve(cat, id, ResolveQuery(req, limit), fault);
            limit == 0 ==>
              r == match ResolveAll(cat, id, req, fault)
                   case Ok(ms) => Ok(Listing(ms))
                   case Err(_) => Err(InternalServerError)
    ensures var r := Resolve(cat, id, ResolveQuery(req, limit), fault);
            limit > 1 ==>
              r == match ResolveN(cat, id, req, fault, limit)
                   case Ok(ms) => Ok(Listing(ms))
                   case Err(_) => Err(InternalServerError)
  {
  }

  /** limit = 1 without a failure: the head of all matches, or not-found
      exactly when nothing recorded for the id matches. */
  lemma ResolveLatest(cat: Catalog, id: string, req: Req)
    ensures var r := Resolve(cat, id, ResolveQuery(req, 1), None);
            var all := Matches(cat, id, req);
            r == if all == [] then Err(NotFound) else Ok(Latest(all[0]))
    ensures Resolve(cat, id, ResolveQuery(req, 1), None) == Err(NotFound) <==>
              forall md: Mod :: md.id == id && Recorded(cat, md) ==> !req(md.version)
  {
    ResolveOneNone(cat, id, req);
    ResolveAgreesWithCatalog(cat, id, req, 1, None);
  }

  /** limit = 1 answers a recorded, matching version greater than every
      other recorded, matching version of the id. */
  lemma ResolveLatestIsGreatest(cat: Catalog, id: string, req: Req)
    ensures var r := Resolve(cat, id, ResolveQuery(req, 1), None);
            r.Ok? ==> && r.value.found.id == id
                      && Recorded(cat, r.value.found)
                      && req(r.value.found.version)
                      && forall md: Mod | md.id == id && Recorded(cat, md) && req(md.version) ::
                           md == r.value.found || Lt(Core(md.version), Core(r.value.found.version))
  {
    ResolveLatest(cat, id, req);
    var all := Matches(cat, id, req);
    if all != [] {
      forall md: Mod | md.id == id && Recorded(cat, md) && req(md.version)
        ensures md == all[0] || Lt(Core(md.version), Core(all[0].version))
      {
        assert md in all;
      }
    }
  }

  /** limit = 0 without a failure: every matching version, greatest first,
      and an empty list rather than an error when nothing matches. */
  lemma ResolveEvery(cat: Catalog, id: string, req: Req, fault: Option<nat>)
    ensures fault.None? ==> Resolve(cat, id, ResolveQuery(req, 0), fault) == Ok(Listing(Matches(cat, id, req)))
    ensures fault.Some? ==> Resolve(cat, id, ResolveQuery(req, 0), fault) == Err(InternalServerError)
    ensures IsMatchList(cat, id, req, Matches(cat, id, req))
  {
    ResolveAgreesWithCatalog(cat, id, req, 0, fault);
    var r := ResolveAll(cat, id, req, fault);
  }

  /** limit = n > 1 without a failure: the n greatest matching versions, or
      all of them when there are fewer. */
  lemma ResolveFirstN(cat: Catalog, id: string, req: Req, n: u64)
    requires n > 1
    ensures var all := Matches(cat, id, req);
            Resolve(cat, id, ResolveQuery(req, n), None) == Ok(Listing(all[..if n <= |all| then n else |all|]))
  {
    ResolveAgreesWithCatalog(cat, id, req, n, None);
    var r := ResolveN(cat, id, req, None, n);
  }

  /** A query with neither `req` nor `limit` answers the id's greatest
      version, and not-found exactly when the id has no version at all. */
  lemma DefaultQueryLatest(cat: Catalog, id: string)
    ensures var r := Resolve(cat, id, ParseResolveQuery(None, None), None);
            (r.Ok? <==> id in Ids(cat))
            && (r.Ok? ==> r.value.found.id == id && Recorded(cat, r.value.found))
            && (r.Ok? ==> forall md: Mod | md.id == id && Recorded(cat, md) ::
                            md == r.value.found || Lt(Core(md.version), Core(r.value.found.version)))
            && (r.Err? ==> r.error == NotFound)
  {
    var q := ParseResolveQuery(None, None);
    assert q == ResolveQuery(Any, 1);
    ResolveLatest(cat, id, Any);
    ResolveLatestIsGreatest(cat, id, Any);
    var r := Resolve(cat, id, q, None);
    if id in Ids(cat) {
      var m :| m in cat && m.id == id;
      RowRoundTrip(m);
      assert Recorded(cat, FromDbMod(m));
    }
    if r.Ok? {
      assert RowOf(id, r.value.found.version) in cat;
    }
  }

  // ---------------------------------------------------------------------
  // auth

  /** The bytes `HeaderValue::to_str` accepts: tab and visible ASCII. */
  predicate VisibleAscii(b: byte) {
    b == 9 || 32 <= b < 127
  }

  datatype ToStrError = ToStrError

  /** `HeaderValue::to_str`: the header as text, when every byte is tab or
      visible ASCII. */
  function HeaderToStr(h: Bytes): (r: Result<string, ToStrError>)
    ensures r.Ok? <==> forall i | 0 <= i < |h| :: VisibleAscii(h[i])
    ensures r.Ok? ==> |r.value| == |h| && forall i | 0 <= i < |h| :: r.value[i] as int == h[i]
  {
    if forall i | 0 <= i < |h| :: VisibleAscii(h[i])
    then Ok(seq(|h|, i requires 0 <= i < |h| => h[i] as char))
    else Err(ToStrError)
  }

  /** The `auth` filter: the `Authorization` header must be present and its
      text one of the configured keys. A header that is not visible ASCII
      ends in an internal error, not in unauthorized. */
  function Auth(keys: set<string>, header: Option<Bytes>): (r: Result<(), Rejection>)
    ensures r.Ok? <==> header.Some? && HeaderToStr(header.value).Ok? && HeaderToStr(header.value).value in keys
    ensures r == Err(InternalServerError) <==> header.Some? && HeaderToStr(header.value).Err?
    ensures r.Err? ==> r.error != NotFound
    ensures header.None? ==> r == Err(Unauthorized)
  {
    match header
    case None => Err(Unauthorized)
    case Some(k) =>
      match ResultOrIse(HeaderToStr(k))
      case Err(e) => Err(e)
      case Ok(s) => if s in keys then Ok(()) else Err(Unauthorized)
  }

  /** `warp::header::optional::<HeaderValue>("Authorization")`: warp reads a
      present header as text before parsing it, and rejects the request as
      an invalid header when that fails; the header reaches `auth`'s
      closure otherwise. */
  function OptionalHeader(header: Option<Bytes>): (r: Result<Option<Bytes>, Rejection>)
    ensures r.Err? <==> header.Some? && HeaderToStr(header.value).Err?
    ensures r.Err? ==> r.error == InvalidHeader
    ensures r.Ok? ==> r.value == header
  {
    match header
    case Some(h) => if HeaderToStr(h).Err? then Err(InvalidHeader) else Ok(header)
    case None => Ok(None)
  }

  /** Behind warp's header filter the closure's `to_str().or_ise()` always
      succeeds: the `auth` filter as a whole never answers an internal
      error, and admits exactly the configured keys. */
  lemma AuthFilterNeverInternalError(keys: set<string>, header: Option<Bytes>)
    ensures OptionalHeader(header).Ok? ==> Auth(keys, OptionalHeader(header).value).Err? ==>
              Auth(keys, OptionalHeader(header).value).error == Unauthorized
    ensures OptionalHeader(header).Err? ==> header.Some? && Auth(keys, header) == Err(InternalServerError)
  {
  }

  /** The bytes a client sends for a key written in visible ASCII. */
  function KeyBytes(key: string): (h: Bytes)
    requires forall i | 0 <= i < |key| :: key[i] == '\t' || ' ' <= key[i] <= '~'
    ensures |h| == |key|
  {
    seq(|key|, i requires 0 <= i < |key| => key[i] as int)
  }

  /** A client sending key `key` is admitted exactly when `key` is
      configured; one sending no header never is. */
  lemma AuthAdmitsConfiguredKeys(keys: set<string>, key: string)
    requires forall i | 0 <= i < |key| :: key[i] == '\t' || ' ' <= key[i] <= '~'
    ensures Auth(keys, Some(KeyBytes(key))) == if key in keys then Ok(()) else Err(Unauthorized)
    ensures Auth(keys, None) == Err(Unauthorized)
  {
    var h := KeyBytes(key);
    var t := HeaderToStr(h);
    assert t.Ok?;
    assert t.value == key;
  }

  // ---------------------------------------------------------------------
  // download

  /** `download`: read the version's file; every read failure, missing file
      or other, is not-found. The catalog is not consulted. */
  function Download(cfg: Config, files: Files, id: string, v: Version, readFails: bool): (r: Response)
    ensures r.Ok? <==> !readFails && FilePath(cfg.downloadsPath, id, v) in files
    ensures r.Ok? ==> r.value == File(files[FilePath(cfg.downloadsPath, id, v)])
    ensures r.Err? ==> r.error == NotFound
  {
    match ResultOrNf(ReadFile(files, FilePath(cfg.downloadsPath, id, v), readFails))
    case Ok(bytes) => Ok(File(bytes))
    case Err(e) => Err(e)
  }

  // ---------------------------------------------------------------------
  // upload

  /** Which of upload's storage calls fail. */
  datatype UploadFaults = UploadFaults(insert: bool, mkdir: bool, write: bool)

  const NoFaults := UploadFaults(false, false, false)

  /** The registry after a request, and the answer. */
  datatype Step = Step(state: Registry, response: Response)

  /** `upload`: register the version first; a duplicate is a conflict with
      nothing written; otherwise create the directory and write the file.
      A directory or write failure is an internal error and the new catalog
      row stays. */
  function Upload(cfg: Config, st: Registry, id: string, v: Version, contents: Bytes, f: UploadFaults): (r: Step)
    ensures r.response == Ok(Created) <==> !f.insert && RowOf(id, v) !in st.cat && !f.mkdir && !f.write
    ensures r.response == Ok(Conflict) <==> !f.insert && RowOf(id, v) in st.cat
    ensures r.response.Err? ==> r.response.error == InternalServerError
    ensures r.response.Ok? ==> r.response.value.Created? || r.response.value.Conflict?
    ensures r.state.cat == if f.insert then st.cat else st.cat + {RowOf(id, v)}
    ensures r.response != Ok(Created) ==> r.state.files == st.files
    ensures r.response == Ok(Created) ==>
              r.state.files == st.files[FilePath(cfg.downloadsPath, id, v) := contents]
  {
    var inserted := if f.insert then Err(DbError) else Ok(Insert(st.cat, id, v));
    match ResultOrIse(inserted)
    case Err(e) => Step(st, Err(e))
    case Ok(ins) =>
      if !ins.added then Step(st, Ok(Conflict))
      else
        var registered := st.(cat := ins.cat);
        match ResultOrIse(CreateDirAll(UploadDir(cfg.downloadsPath, id, v), f.mkdir))
        case Err(e) => Step(registered, Err(e))
        case Ok(_) =>
          match ResultOrIse(WriteFile(st.files, UploadFile(cfg.downloadsPath, id, v), contents, f.write))
          case Err(e) => Step(registered, Err(e))
          case Ok(files) => Step(registered.(files := files), Ok(Created))
  }

  /** The upload route: warp's header filter and the `auth` closure, then
      `upload`. A rejected request leaves the registry as it was. */
  function Publish(cfg: Config, st: Registry, header: Option<Bytes>, id: string, v: Version, contents: Bytes, f: UploadFaults): (r: Step)
    ensures Auth(cfg.keys, header).Err? ==> r.state == st && r.response.Err?
    ensures Auth(cfg.keys, header).Err? ==>
              r.response.error == if OptionalHeader(header).Err? then InvalidHeader else Unauthorized
    ensures header.None? ==> r == Step(st, Err(Unauthorized))
    ensures Auth(cfg.keys, header).Ok? ==> r == Upload(cfg, st, id, v, contents, f)
  {
    match OptionalHeader(header)
    case Err(e) => Step(st, Err(e))
    case Ok(h) =>
      match Auth(cfg.keys, h)
      case Err(e) => Step(st, Err(e))
      case Ok(_) => Upload(cfg, st, id, v, contents, f)
  }

  /** An upload answered Created is downloaded back byte for byte, also under
      any version with the same numeric core. */
  lemma UploadThenDownload(cfg: Config, st: Registry, id: string, v: Version, w: Version, contents: Bytes, f: UploadFaults)
    requires Upload(cfg, st, id, v, contents, f).response == Ok(Created)
    requires Core(w) == Core(v)
    ensures Download(cfg, Upload(cfg, st, id, v, contents, f).state.files, id, w, false) == Ok(File(contents))
  {
    FilePathInjective(cfg.downloadsPath, id, v, id, w);
  }

  /** Uploading a version that is already registered, even with other bytes,
      is a conflict that changes nothing: what was stored is still what is
      downloaded. */
  lemma ConflictKeepsBytes(cfg: Config, st: Registry, id: string, v: Version, contents: Bytes, readFails: bool)
    requires RowOf(id, v) in st.cat
    ensures var r := Upload(cfg, st, id, v, contents, NoFaults);
            r == Step(st, Ok(Conflict))
            && Download(cfg, r.state.files, id, v, readFails) == Download(cfg, st.files, id, v, readFails)
  {
  }

  /** Two uploads of the same version: whatever the second carries, it is a
      conflict and the first one's bytes are served. */
  lemma SecondUploadConflicts(cfg: Config, st: Registry, id: string, v: Version, first: Bytes, second: Bytes)
    requires RowOf(id, v) !in st.cat
    ensures var s1 := Upload(cfg, st, id, v, first, NoFaults);
            var s2 := Upload(cfg, s1.state, id, v, second, NoFaults);
            && s1.response == Ok(Created)
            && s2 == Step(s1.state, Ok(Conflict))
            && Download(cfg, s2.state.files, id, v, false) == Ok(File(first))
  {
    var s1 := Upload(cfg, st, id, v, first, NoFaults);
    UploadThenDownload(cfg, st, id, v, v, first, NoFaults);
    ConflictKeepsBytes(cfg, s1.state, id, v, second, false);
  }

  /** An upload touches only its own file: every other version's download is
      unchanged. */
  lemma UploadLeavesOtherFiles(cfg: Config, st: Registry, id: string, v: Version, contents: Bytes, f: UploadFaults,
                               id2: string, w: Version, readFails: bool)
    requires id2 != id || Core(w) != Core(v)
    ensures Download(cfg, Upload(cfg, st, id, v, contents, f).state.files, id2, w, readFails)
            == Download(cfg, st.files, id2, w, readFails)
  {
    FilePathInjective(cfg.downloadsPath, id, v, id2, w);
  }

  /** Registered but not stored: when the directory or the write fails after
      a successful insert, the answer is an internal error, the version is
      recorded (resolve lists it), and its download is not-found. */
  lemma FailedStoreKeepsRecord(cfg: Config, st: Registry, id: string, v: Version, contents: Bytes, f: UploadFaults)
    requires !f.insert && RowOf(id, v) !in st.cat && (f.mkdir || f.write)
    requires FilePath(cfg.downloadsPath, id, v) !in st.files
    ensures var r := Upload(cfg, st, id, v, contents, f);
            && r.response == Err(InternalServerError)
            && Recorded(r.state.cat, Mod(id, Plain(v.major, v.minor, v.patch)))
            && Download(cfg, r.state.files, id, v, false) == Err(NotFound)
  {
    var r := Upload(cfg, st, id, v, contents, f);
    assert RowOf(id, Plain(v.major, v.minor, v.patch)) == RowOf(id, v);
  }

  /** Every stored file belongs to a registered version. */
  ghost predicate FilesRegistered(cfg: Config, st: Registry) {
    forall id: string, v: Version | FilePath(cfg.downloadsPath, id, v) in st.files :: RowOf(id, v) in st.cat
  }

  /** Uploads keep every stored file backed by a catalog row: bytes are only
      ever written after the row is in place. The converse does not hold
      (see FailedStoreKeepsRecord). */
  lemma PublishKeepsFilesRegistered(cfg: Config, st: Registry, header: Option<Bytes>, id: string, v: Version,
                                    contents: Bytes, f: UploadFaults)
    requires FilesRegistered(cfg, st)
    ensures FilesRegistered(cfg, Publish(cfg, st, header, id, v, contents, f).state)
  {
    var r := Publish(cfg, st, header, id, v, contents, f);
    forall id2: string, w: Version | FilePath(cfg.downloadsPath, id2, w) in r.state.files
      ensures RowOf(id2, w) in r.state.cat
    {
      FilePathInjective(cfg.downloadsPath, id, v, id2, w);
      RowOfInjective(id, v, id2, w);
    }
  }

  /** With every file registered, a version never registered is not found. */
  lemma UnregisteredNotFound(cfg: Config, st: Registry, id: string, v: Version, readFails: bool)
    requires FilesRegistered(cfg, st)
    requires RowOf(id, v) !in st.cat
    ensures Download(cfg, st.files, id, v, readFails) == Err(NotFound)
  {
  }
}
