/** The deploy-release projection: six members, their canonical bytes and five display rows. */
module DeployRelease {
  import opened Prelude
  import opened Json
  import opened Receipt
  import opened Projections

  datatype Release = Release(repository: string, commit: string, environment: string, imageDigest: string,
                             targetAccount: string, operation: string)

  predicate LabelChar(c: char) {
    'a' <= c <= 'z' || 'A' <= c <= 'Z' || '0' <= c <= '9' || c in {'.', '_', '-', ':', '@', '+', '/'}
  }

  predicate LabelOk(s: string) { 0 < |s| <= 256 && forall i | 0 <= i < |s| :: LabelChar(s[i]) }

  predicate ImageOk(s: string) { |s| == 71 && s[..7] == "sha256:" && HexOk(s[7..], 64) }

  predicate OperationOk(s: string) { s == "deploy" || s == "rollback" }

  predicate ReleaseOk(r: Release) {
    && LabelOk(r.repository) && HexOk(r.commit, 40) && LabelOk(r.environment)
    && ImageOk(r.imageDigest) && LabelOk(r.targetAccount) && OperationOk(r.operation)
  }

  function ReleaseValue(r: Release): Value {
    Obj(map["repository" := Str(r.repository), "commit" := Str(r.commit), "environment" := Str(r.environment),
            "imageDigest" := Str(r.imageDigest), "targetAccount" := Str(r.targetAccount),
            "operation" := Str(r.operation)])
  }

  const RELEASE_KEYS: set<string> := {"repository", "commit", "environment", "imageDigest", "targetAccount",
                                      "operation"}

  /** The six members by their own rules; whatever else the object holds is not looked at here. */
  function ReadRelease(v: Value): Option<Release>
    requires v.Obj?
  {
    var repository, commit, environment := TextOf(v, "repository"), TextOf(v, "commit"), TextOf(v, "environment");
    var imageDigest, targetAccount := TextOf(v, "imageDigest"), TextOf(v, "targetAccount");
    var operation := TextOf(v, "operation");
    if repository.None? || commit.None? || environment.None? || imageDigest.None? || targetAccount.None?
        || operation.None? then None
    else
      var r := Release(repository.value, commit.value, environment.value, imageDigest.value, targetAccount.value,
                       operation.value);
      if ReleaseOk(r) then Some(r) else None
  }

  ghost function ReleaseView(canonical: bytes): Option<Release> {
    var v :- Document(canonical);
    if v.Obj? then ReadRelease(v) else None
  }

  const DEPLOY_ACTION := "noa.deploy.release"

  function ReleaseLine(r: Release): string { r.operation + " " + r.repository + "@" + r.commit }

  function ReleaseRows(r: Release): map<string, string> {
    map["Action" := DEPLOY_ACTION, "Release" := ReleaseLine(r), "Environment" := r.environment,
        "Target" := r.targetAccount, "Image" := r.imageDigest]
  }

  ghost function ProjectRelease(data: bytes): Projection<Release> {
    match Document(data)
    case None => Refuse(PARSE)
    case Some(v) =>
      if !v.Obj? then Refuse(NOT_OBJECT)
      else
        match ReadRelease(v)
        case None => Refuse(PARAMS_INVALID)
        case Some(r) =>
          if !(v.members.Keys <= RELEASE_KEYS) then Refuse(UNRECOGNIZED_MEMBER)
          else
            match Canonicalize(ReleaseValue(r))
            case None => Refuse(CANONICAL_REPARSE)
            case Some(canonical) =>
              match ReleaseView(canonical)
              case None => Refuse(CANONICAL_REPARSE)
              case Some(bound) => Shown(canonical, bound, ReleaseRows(bound))
  }

  /** Reading and the closed world together accept exactly the objects that are a valid tuple. */
  lemma ReadReleaseExact(v: Value, r: Release)
    requires v.Obj?
    ensures ReadRelease(v) == Some(r) && v.members.Keys <= RELEASE_KEYS <==> ReleaseOk(r) && v == ReleaseValue(r)
  {
    hide LabelOk, HexOk, ImageOk, OperationOk;
    if ReadRelease(v) == Some(r) && v.members.Keys <= RELEASE_KEYS {
      assert v.members.Keys == RELEASE_KEYS;
      assert v.members == ReleaseValue(r).members;
    }
  }

  lemma ReleaseFlat(r: Release)
    requires ReleaseOk(r)
    ensures FlatTexts(ReleaseValue(r), 6)
  {
    hide LabelOk, HexOk, ImageOk, OperationOk, FlatTexts;
    ShortFields(r);
    SixTextsFlat("repository", "commit", "environment", "imageDigest", "targetAccount", "operation",
                 r.repository, r.commit, r.environment, r.imageDigest, r.targetAccount, r.operation);
  }

  lemma ShortFields(r: Release)
    requires ReleaseOk(r)
    ensures |r.repository| <= 300 && |r.commit| <= 300 && |r.environment| <= 300
    ensures |r.imageDigest| <= 300 && |r.targetAccount| <= 300 && |r.operation| <= 300
  {
  }

  lemma ReleaseReads(r: Release)
    requires ReleaseOk(r)
    ensures Canonicalize(ReleaseValue(r)) == Some(Print(ReleaseValue(r)))
    ensures ReleaseView(Print(ReleaseValue(r))) == Some(r)
  {
    hide Canonicalize, Document, ReleaseOk, ReadRelease, FlatTexts;
    ReleaseFlat(r);
    FlatTextsReparse(ReleaseValue(r));
    ReadReleaseExact(ReleaseValue(r), r);
  }

  /**
   * What the projection shows is the tuple of the document, its canonical bytes and its rows, and no input reaches
   * the re-parse refusal.
   */
  lemma ReleaseProjection(data: bytes, r: Release)
    ensures ProjectRelease(data) != Refuse(CANONICAL_REPARSE)
    ensures Document(data) == Some(ReleaseValue(r)) && ReleaseOk(r)
            <==> ProjectRelease(data).Shown? && ProjectRelease(data).value == r
    ensures ProjectRelease(data).Shown? && ProjectRelease(data).value == r ==>
              ProjectRelease(data) == Shown(Print(ReleaseValue(r)), r, ReleaseRows(r))
  {
    hide Document, ReleaseOk, Canonicalize, Print, ReleaseValue, ReleaseRows, ReadRelease;
    if Document(data).Some? && Document(data).value.Obj? {
      var v := Document(data).value;
      ReadReleaseExact(v, r);
      if ReadRelease(v).Some? {
        ReadReleaseExact(v, ReadRelease(v).value);
        if v.members.Keys <= RELEASE_KEYS {
          ReleaseReads(ReadRelease(v).value);
        }
      }
    }
    ReleaseIsObject(r);
  }

  lemma ReleaseIsObject(r: Release)
    ensures ReleaseValue(r).Obj?
  {
  }

  /** The Release line read back: the operation is its first word, the commit its last forty characters. */
  function ReadLine(line: string): Option<(string, string, string)> {
    var word := if |line| >= 6 && line[..6] == "deploy" then 6 else 8;
    if |line| < word + 42 then None
    else Some((line[..word], line[word + 1..|line| - 41], line[|line| - 40..]))
  }

  /** The line determines all three parts, whatever separators the repository contains. */
  lemma ReleaseLineReads(r: Release)
    requires ReleaseOk(r)
    ensures ReadLine(ReleaseLine(r)) == Some((r.operation, r.repository, r.commit))
  {
    hide LabelChar;
    var line, op := ReleaseLine(r), |r.operation|;
    assert line[..op] == r.operation;
    assert line[op + 1..|line| - 41] == r.repository;
    assert line[|line| - 40..] == r.commit;
    if r.operation == "rollback" {
      assert line[0] == 'r';
      assert line[..6][0] == 'r';
    } else {
      assert line[..6] == "deploy";
    }
  }

  lemma ReleaseLineInjective(r: Release, s: Release)
    requires ReleaseOk(r) && ReleaseOk(s) && ReleaseLine(r) == ReleaseLine(s)
    ensures r.operation == s.operation && r.repository == s.repository && r.commit == s.commit
  {
    hide ReleaseOk, ReleaseLine, ReadLine;
    ReleaseLineReads(r);
    ReleaseLineReads(s);
  }

  /** Two documents bind the same bytes exactly when they show the same rows, and then they are the same tuple. */
  lemma ReleaseBinds(a: bytes, b: bytes)
    requires ProjectRelease(a).Shown? && ProjectRelease(b).Shown?
    ensures ProjectRelease(a).canonical == ProjectRelease(b).canonical
            <==> ProjectRelease(a).rows == ProjectRelease(b).rows
    ensures ProjectRelease(a).rows == ProjectRelease(b).rows <==> ProjectRelease(a).value == ProjectRelease(b).value
  {
    hide ProjectRelease, ReleaseOk, ReleaseLine, ReleaseView;
    var r, s := ProjectRelease(a).value, ProjectRelease(b).value;
    ReleaseProjection(a, r);
    ReleaseProjection(b, s);
    if ReleaseRows(r) == ReleaseRows(s) {
      SameRows(r, s);
    }
    ReleaseReads(r);
    ReleaseReads(s);
  }

  lemma SameRows(r: Release, s: Release)
    requires ReleaseOk(r) && ReleaseOk(s) && ReleaseRows(r) == ReleaseRows(s)
    ensures r == s
  {
    hide ReleaseOk, ReleaseLine;
    assert ReleaseRows(r)["Release"] == ReleaseRows(s)["Release"];
    assert ReleaseRows(r)["Environment"] == ReleaseRows(s)["Environment"];
    assert ReleaseRows(r)["Target"] == ReleaseRows(s)["Target"];
    assert ReleaseRows(r)["Image"] == ReleaseRows(s)["Image"];
    ReleaseLineInjective(r, s);
  }
}
