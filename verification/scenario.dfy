/** The walk-through of src/tests.rs on the model: three uploads, a
    duplicate, two downloads and three resolutions, for any file contents.
    `^1` and `~3` stand for the semver crate's requirements only on the
    plain versions used here (^1 is >=1.0.0 <2.0.0, ~3 is >=3.0.0 <4.0.0);
    they are not a model of that crate. */
module Scenario {
  import opened Prelude
  import opened SemVer
  import opened Errors
  import opened Db
  import opened Routes

  const Caret1: Req := (v: Version) => v.major == 1
  const Tilde3: Req := (v: Version) => v.major == 3

  const TestKey: string := "secret"
  const Cfg: Config := Config(["target", "test-downloads"], {TestKey})

  function Header(): Option<Bytes> {
    Some(KeyBytes(TestKey))
  }

  const V100: Version := Plain(1, 0, 0)
  const V120: Version := Plain(1, 2, 0)
  const V234: Version := Plain(2, 3, 4)
  const V300: Version := Plain(3, 0, 0)

  const Empty: Registry := Registry({}, map[])

  /** The registry after the three uploads of the test. */
  function Uploaded(b1: Bytes, b2: Bytes, b3: Bytes): Registry {
    var s1 := Publish(Cfg, Empty, Header(), "bshook", V100, b1, NoFaults).state;
    var s2 := Publish(Cfg, s1, Header(), "bshook", V120, b2, NoFaults).state;
    Publish(Cfg, s2, Header(), "hsv", V234, b3, NoFaults).state
  }

  lemma HeaderAdmitted()
    ensures Auth(Cfg.keys, Header()) == Ok(())
  {
    AuthAdmitsConfiguredKeys(Cfg.keys, TestKey);
  }

  /** The three uploads are created, and the catalog holds their rows. */
  lemma UploadsCreated(b1: Bytes, b2: Bytes, b3: Bytes)
    ensures var s1 := Publish(Cfg, Empty, Header(), "bshook", V100, b1, NoFaults);
            var s2 := Publish(Cfg, s1.state, Header(), "bshook", V120, b2, NoFaults);
            var s3 := Publish(Cfg, s2.state, Header(), "hsv", V234, b3, NoFaults);
            && s1.response == Ok(Created)
            && s2.response == Ok(Created)
            && s3.response == Ok(Created)
            && s3.state == Uploaded(b1, b2, b3)
            && s3.state.cat == {DbMod("bshook", 1, 0, 0), DbMod("bshook", 1, 2, 0), DbMod("hsv", 2, 3, 4)}
  {
    HeaderAdmitted();
  }

  /** The duplicate upload conflicts; the first bytes are downloaded; an
      unpublished version is not found. */
  lemma DuplicateAndDownloads(b1: Bytes, b2: Bytes, b3: Bytes, dup: Bytes)
    ensures var st := Uploaded(b1, b2, b3);
            var d := Publish(Cfg, st, Header(), "bshook", V100, dup, NoFaults);
            && d == Step(st, Ok(Conflict))
            && Download(Cfg, d.state.files, "bshook", V100, false) == Ok(File(b1))
            && Download(Cfg, d.state.files, "bshook", V300, false) == Err(NotFound)
  {
    HeaderAdmitted();
    UploadsCreated(b1, b2, b3);
    var s1 := Publish(Cfg, Empty, Header(), "bshook", V100, b1, NoFaults);
    var s2 := Publish(Cfg, s1.state, Header(), "bshook", V120, b2, NoFaults);
    UploadThenDownload(Cfg, Empty, "bshook", V100, V100, b1, NoFaults);
    UploadLeavesOtherFiles(Cfg, s1.state, "bshook", V120, b2, NoFaults, "bshook", V100, false);
    UploadLeavesOtherFiles(Cfg, s2.state, "hsv", V234, b3, NoFaults, "bshook", V100, false);
    var st := Uploaded(b1, b2, b3);
    assert FilesRegistered(Cfg, st) by {
      assert FilesRegistered(Cfg, Empty);
      PublishKeepsFilesRegistered(Cfg, Empty, Header(), "bshook", V100, b1, NoFaults);
      PublishKeepsFilesRegistered(Cfg, s1.state, Header(), "bshook", V120, b2, NoFaults);
      PublishKeepsFilesRegistered(Cfg, s2.state, Header(), "hsv", V234, b3, NoFaults);
    }
    UnregisteredNotFound(Cfg, st, "bshook", V300, false);
  }

  /** The catalog the three uploads leave. */
  function UploadedRows(): Catalog {
    {DbMod("bshook", 1, 0, 0), DbMod("bshook", 1, 2, 0), DbMod("hsv", 2, 3, 4)}
  }

  /** On that catalog, 1.2.0 then 1.0.0 meets the reference description of
      bshook's `^1` matches. */
  lemma CaretMatchList()
    ensures IsMatchList(UploadedRows(), "bshook", Caret1, [Mod("bshook", V120), Mod("bshook", V100)])
  {
    var cat := UploadedRows();
    var ms := [Mod("bshook", V120), Mod("bshook", V100)];
    assert RowOf("bshook", V100) == DbMod("bshook", 1, 0, 0);
    assert RowOf("bshook", V120) == DbMod("bshook", 1, 2, 0);
    forall md: Mod | md.id == "bshook" && Recorded(cat, md) && Caret1(md.version)
      ensures md in ms
    {
      RowOfInjective("bshook", md.version, "bshook", V100);
      RowOfInjective("bshook", md.version, "bshook", V120);
      RowOfInjective("bshook", md.version, "hsv", V234);
    }
  }

  /** The matches of `^1` among bshook's versions: 1.2.0, then 1.0.0. */
  lemma CaretMatches(b1: Bytes, b2: Bytes, b3: Bytes)
    ensures Matches(Uploaded(b1, b2, b3).cat, "bshook", Caret1) == [Mod("bshook", V120), Mod("bshook", V100)]
  {
    assert Uploaded(b1, b2, b3).cat == UploadedRows() by {
      UploadsCreated(b1, b2, b3);
    }
    CaretMatchList();
    MatchesCharacterized(UploadedRows(), "bshook", Caret1, [Mod("bshook", V120), Mod("bshook", V100)]);
  }

  /** `^1` over bshook: latest is 1.2.0, all is [1.2.0, 1.0.0]. */
  lemma ResolveCaret(b1: Bytes, b2: Bytes, b3: Bytes)
    ensures var cat := Uploaded(b1, b2, b3).cat;
            && Resolve(cat, "bshook", ResolveQuery(Caret1, 1), None) == Ok(Latest(Mod("bshook", V120)))
            && Resolve(cat, "bshook", ResolveQuery(Caret1, 0), None)
                 == Ok(Listing([Mod("bshook", V120), Mod("bshook", V100)]))
  {
    var cat := Uploaded(b1, b2, b3).cat;
    CaretMatches(b1, b2, b3);
    ResolveLatest(cat, "bshook", Caret1);
    ResolveEvery(cat, "bshook", Caret1, None);
  }

  /** On that catalog no recorded version of hsv meets `~3`. */
  lemma TildeNoMatch()
    ensures forall md: Mod | md.id == "hsv" && Recorded(UploadedRows(), md) :: !Tilde3(md.version)
  {
    forall md: Mod | md.id == "hsv" && Recorded(UploadedRows(), md)
      ensures !Tilde3(md.version)
    {
      RowOfInjective("hsv", md.version, "hsv", V234);
    }
  }

  /** `~3` over hsv, which has only 2.3.4: not found. */
  lemma ResolveTildeNone(b1: Bytes, b2: Bytes, b3: Bytes)
    ensures Resolve(Uploaded(b1, b2, b3).cat, "hsv", ResolveQuery(Tilde3, 1), None) == Err(NotFound)
  {
    assert Uploaded(b1, b2, b3).cat == UploadedRows() by {
      UploadsCreated(b1, b2, b3);
    }
    TildeNoMatch();
    ResolveLatest(UploadedRows(), "hsv", Tilde3);
  }

  /** Numeric, not lexical: with 9.0.0 and 10.0.0 published, the latest is
      10.0.0 and the listing starts with it. */
  lemma NumericOrder()
    ensures var cat := Insert(Insert({}, "m", Plain(9, 0, 0)).cat, "m", Plain(10, 0, 0)).cat;
            && Resolve(cat, "m", ParseResolveQuery(None, None), None) == Ok(Latest(Mod("m", Plain(10, 0, 0))))
            && Resolve(cat, "m", ParseResolveQuery(None, Some(0)), None)
                 == Ok(Listing([Mod("m", Plain(10, 0, 0)), Mod("m", Plain(9, 0, 0))]))
  {
    var cat := Insert(Insert({}, "m", Plain(9, 0, 0)).cat, "m", Plain(10, 0, 0)).cat;
    var ms := [Mod("m", Plain(10, 0, 0)), Mod("m", Plain(9, 0, 0))];
    assert cat == {DbMod("m", 9, 0, 0), DbMod("m", 10, 0, 0)};
    forall md: Mod | md.id == "m" && Recorded(cat, md) && Any(md.version)
      ensures md in ms
    {
      RowOfInjective("m", md.version, "m", Plain(9, 0, 0));
      RowOfInjective("m", md.version, "m", Plain(10, 0, 0));
    }
    assert IsMatchList(cat, "m", Any, ms);
    MatchesCharacterized(cat, "m", Any, ms);
    assert ParseResolveQuery(None, None) == ResolveQuery(Any, 1);
    assert ParseResolveQuery(None, Some(0)) == ResolveQuery(Any, 0);
    ResolveLatest(cat, "m", Any);
    ResolveEvery(cat, "m", Any, None);
  }
}
