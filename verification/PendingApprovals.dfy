/** Reading an adoption back: from a pull request's body to the resource it adopts. */
module PendingApprovals {
  import opened Wrappers
  import opened BoundedText
  import opened AdoptRecipe

  // ----- The parser -----------------------------------------------------------------------

  function SpaceRun(s: string): (n: nat)
    ensures n <= |s|
    ensures n < |s| ==> !IsSpace(s[n])
  {
    if s == "" || !IsSpace(s[0]) then 0 else 1 + SpaceRun(s[1..])
  }

  /** How far it is to the next backtick, or to the end. */
  function BacktickFree(s: string): (n: nat)
    ensures n <= |s|
    ensures n < |s| ==> s[n] == '`'
  {
    if s == "" || s[0] == '`' then 0 else 1 + BacktickFree(s[1..])
  }

  /** The id of a label that starts here: whitespace, then something between two backticks. */
  function IdHere(s: string): Option<string> {
    if !(IMPORT_LABEL <= s) then None
    else
      var after := s[|IMPORT_LABEL|..];
      var quoted := after[SpaceRun(after)..];
      if quoted == "" || quoted[0] != '`' then None
      else
        var n := BacktickFree(quoted[1..]);
        if n == 0 || n == |quoted| - 1 then None else Some(quoted[1..n + 1])
  }

  /** The first label that carries one wins. */
  function ExtractImportId(body: string): Option<string> {
    if body == "" then None
    else if IdHere(body).Some? then IdHere(body)
    else ExtractImportId(body[1..])
  }

  datatype Resource = Resource(assetType: string, name: string)

  /** The kinds are tried in order; the name is the last segment. */
  function ImportIdToResource(id: string): Option<Resource> {
    var parts := Segments(id);
    var name := parts[|parts| - 1];
    if HasShape(Bucket, id) then Some(Resource(AssetType(Bucket), name))
    else if HasShape(Topic, id) then Some(Resource(AssetType(Topic), name))
    else if HasShape(Subscription, id) then Some(Resource(AssetType(Subscription), name))
    else if HasShape(Service, id) then Some(Resource(AssetType(Service), name))
    else None
  }

  predicate IsTraceId(s: string) {
    |s| == 32 && forall i :: 0 <= i < |s| ==> '0' <= s[i] <= '9' || 'a' <= s[i] <= 'f'
  }

  datatype PendingApproval = PendingApproval(
    prNumber: int, title: string, url: string, assetType: string, resourceName: string, authoringTraceId: string)

  function BuildPendingApproval(prNumber: int, title: string, url: string, body: Option<string>,
                                traceId: Option<string>): PendingApproval
  {
    var id := if body.Some? then ExtractImportId(body.value) else None;
    var resource := if id.Some? then ImportIdToResource(id.value) else None;
    PendingApproval(prNumber, title, url,
                    if resource.Some? then resource.value.assetType else "",
                    if resource.Some? then resource.value.name else "",
                    if traceId.Some? && IsTraceId(traceId.value) then traceId.value else "")
  }

  // ----- Nothing above the id reads as a label --------------------------------------------

  /** No label starts in this text, whatever follows it. */
  ghost predicate NoLabel(s: string) {
    forall i :: 0 <= i < |s| && s[i] == '*' ==>
      i + 1 < |s| && (s[i + 1] != '*' || (i + 2 < |s| && s[i + 2] != 'I'))
  }

  lemma NoLabelOfConcat(a: string, b: string)
    requires NoLabel(a) && NoLabel(b)
    ensures NoLabel(a + b)
  {
    var t := a + b;
    forall i | 0 <= i < |t| && t[i] == '*'
      ensures i + 1 < |t| && (t[i + 1] != '*' || (i + 2 < |t| && t[i + 2] != 'I'))
    {
      if i < |a| {
        assert a[i] == '*';
      } else {
        assert b[i - |a|] == '*';
      }
    }
  }

  lemma NoLabelWithoutStar(s: string)
    requires '*' !in s
    ensures NoLabel(s)
  {
    forall i | 0 <= i < |s| ensures s[i] != '*' {
      assert s[i] in s;
    }
  }

  lemma NoLabelOfTail(s: string)
    requires NoLabel(s) && s != ""
    ensures NoLabel(s[1..])
  {
    var tail := s[1..];
    forall i | 0 <= i < |tail| && tail[i] == '*'
      ensures i + 1 < |tail| && (tail[i + 1] != '*' || (i + 2 < |tail| && tail[i + 2] != 'I'))
    {
      assert s[i + 1] == '*';
    }
  }

  lemma NoLabelHere(head: string, rest: string)
    requires NoLabel(head) && head != ""
    ensures !(IMPORT_LABEL <= head + rest)
  {
    var s := head + rest;
    assert IMPORT_LABEL[0] == '*' && IMPORT_LABEL[1] == '*' && IMPORT_LABEL[2] == 'I';
    assert s[0] == head[0] && (|head| > 1 ==> s[1] == head[1]) && (|head| > 2 ==> s[2] == head[2]);
  }

  lemma {:induction false} SkipsUnlabelled(head: string, rest: string)
    requires NoLabel(head)
    ensures ExtractImportId(head + rest) == ExtractImportId(rest)
  {
    if head == "" {
      assert head + rest == rest;
    } else {
      NoLabelHere(head, rest);
      NoLabelOfTail(head);
      SkipsUnlabelled(head[1..], rest);
      assert (head + rest)[1..] == head[1..] + rest;
    }
  }

  // ----- The id where it is written -------------------------------------------------------

  lemma {:induction false} BacktickFreeOf(id: string, rest: string)
    requires '`' !in id
    ensures BacktickFree(id + "`" + rest) == |id|
  {
    var s := id + "`" + rest;
    if id != "" {
      assert s[0] == id[0] && id[0] in id;
      BacktickFreeOf(id[1..], rest);
      assert s[1..] == id[1..] + "`" + rest;
    }
  }

  lemma ReadsBack(id: string, rest: string)
    requires id != "" && '`' !in id
    ensures ExtractImportId(IMPORT_LABEL + " `" + id + "`" + rest) == Some(id)
  {
    var s := IMPORT_LABEL + " `" + id + "`" + rest;
    var quoted := "`" + id + "`" + rest;
    assert s[|IMPORT_LABEL|..] == " " + quoted;
    assert !IsSpace(quoted[0]) && (" " + quoted)[1..] == quoted;
    assert SpaceRun(quoted) == 0;
    assert SpaceRun(" " + quoted) == 1;
    assert quoted[1..] == id + "`" + rest;
    BacktickFreeOf(id, rest);
    assert quoted[1..|id| + 1] == id;
    assert s != "" && IdHere(s) == Some(id);
  }

  // ----- Printer and parser undo each other -----------------------------------------------

  lemma NamesHaveNoStar(name: string)
    requires IsName(name)
    ensures '*' !in name && '`' !in name
  {
  }

  lemma HumanHasNoStar(kind: Kind)
    ensures '*' !in Human(kind)
  {
  }

  /** Bold words stand only where the wording has them, and no one of them is the label. */
  ghost predicate WellWorded(w: Wording) {
    && '*' !in w.adopt && '*' !in w.quote && '*' !in w.into
    && '*' !in w.brings && '*' !in w.under && '*' !in w.because
    && NoLabel(w.what) && NoLabel(w.why)
  }

  lemma ReasonsHaveNoStar()
    ensures '*' !in NOT_TRACKED && '*' !in IMPORTED
  {
    assert '*' !in "The resource already exists in GCP " && '*' !in "but is not tracked in IaC state. ";
    assert '*' !in "This PR adds it to the IaC " && '*' !in "configuration and imports it — ";
  }

  lemma PromisesHaveNoStar()
    ensures '*' !in UNDER && '*' !in UNMODIFIED
  {
    assert '*' !in "` under OpenTofu management " && '*' !in "via a zero-change import.\n\n";
    assert '*' !in "nothing in the cloud " && '*' !in "will be modified.\n\n";
  }

  lemma OpeningsHaveNoStar()
    ensures '*' !in "## Adopt " && '*' !in " `" && '*' !in "` into IaC management\n\n"
    ensures '*' !in "Brings the existing live "
  {
  }

  lemma BoldWordsAreNoLabel()
    ensures NoLabel("**What:** ") && NoLabel("**Why:** ")
  {
  }

  lemma ShippedIsWellWorded()
    ensures WellWorded(SHIPPED)
  {
    ReasonsHaveNoStar();
    PromisesHaveNoStar();
    OpeningsHaveNoStar();
    BoldWordsAreNoLabel();
  }

  lemma HeadHasNoLabel(w: Wording, human: string, name: string)
    requires WellWorded(w) && '*' !in human && '*' !in name
    ensures NoLabel(BodyHead(w, human, name))
  {
    var heading, purpose := Heading(w, human, name), Purpose(w, human, name);
    NoLabelWithoutStar(heading);
    NoLabelWithoutStar(purpose);
    NoLabelWithoutStar(w.because);
    NoLabelOfConcat(heading, w.what);
    NoLabelOfConcat(heading + w.what, purpose);
    NoLabelOfConcat(heading + w.what + purpose, w.why);
    NoLabelOfConcat(heading + w.what + purpose + w.why, w.because);
  }

  lemma ImportIdsAreQuotable(kind: Kind, name: string, project: string, location: string)
    requires IsName(name) && IsProject(project) && (kind.Service? ==> IsLocation(location))
    ensures ImportId(kind, name, project, location) != "" && '`' !in ImportId(kind, name, project, location)
  {
    assert '`' !in "projects/" && '`' !in "/topics/" && '`' !in "/subscriptions/";
    assert '`' !in "/locations/" && '`' !in "/services/";
  }

  /** An id gives back its kind and its name, whichever of the four shapes it has. */
  lemma IdReadsBack(kind: Kind, name: string, project: string, location: string)
    requires IsSegment(name) && (kind.Bucket? || IsSegment(project)) && (kind.Service? ==> IsSegment(location))
    ensures ImportIdToResource(ImportId(kind, name, project, location)) == Some(Resource(AssetType(kind), name))
  {
    var id := ImportId(kind, name, project, location);
    ShapeOfImportId(kind, name, project, location, Bucket);
    ShapeOfImportId(kind, name, project, location, Topic);
    ShapeOfImportId(kind, name, project, location, Subscription);
    ShapeOfImportId(kind, name, project, location, Service);
    IdSegmentsAre(kind, name, project, location);
  }

  lemma BodyReadsBack(w: Wording, human: string, name: string, id: string, address: string, path: string)
    requires WellWorded(w) && '*' !in human && '*' !in name && id != "" && '`' !in id
    ensures ExtractImportId(Body(w, human, name, id, address, path)) == Some(id)
  {
    var tail := BodyTail(w, address, path);
    HeadHasNoLabel(w, human, name);
    SkipsUnlabelled(BodyHead(w, human, name), IMPORT_LABEL + " `" + id + "`" + tail);
    ReadsBack(id, tail);
  }

  lemma RenderReadsBack(kind: Kind, name: string, id: string, w: Wording)
    requires WellWorded(w) && IsName(name) && id != "" && '`' !in id
    ensures var r := Render(kind, name, id, w); r.importId == id && ExtractImportId(r.body) == Some(id)
  {
    NamesHaveNoStar(name);
    HumanHasNoStar(kind);
    BodyReadsBack(w, Human(kind), name, id, TypeName(kind) + ".adopt_" + Slug(name),
                  "iac/adopt_" + ShortName(kind) + "_" + Slug(name) + ".tf");
  }

  /** For every parameter set the renderer accepts, the body of its pull request gives back the
      import id, and the import id gives back the asset type and the name. */
  lemma AdoptionReadsBack(resourceType: string, name: string, project: string, location: Option<string>,
                          topic: Option<string>, image: Option<string>,
                          canonical: string -> Option<Kind>, refused: (Kind, string) -> bool, w: Wording)
    requires WellWorded(w)
    requires RenderAdoption(resourceType, name, project, location, topic, image, canonical, refused, w).Ok?
    ensures var r := RenderAdoption(resourceType, name, project, location, topic, image, canonical, refused, w).value;
            && ExtractImportId(r.body) == Some(r.importId)
            && ImportIdToResource(r.importId) == Some(Resource(AssetType(canonical(resourceType).value), name))
  {
    RendersExactly(resourceType, name, project, location, topic, image, canonical, refused, w);
    var kind := canonical(resourceType).value;
    var where := if location.Some? then location.value else "";
    NamesAreSegments(name, project, where);
    ImportIdsAreQuotable(kind, name, project, where);
    RenderReadsBack(kind, name, ImportId(kind, name, project, where), w);
    IdReadsBack(kind, name, project, where);
  }

  /** The pending approval built from an adoption's own body shows the resource that is adopted. */
  lemma ApprovalShowsResource(resourceType: string, name: string, project: string, location: Option<string>,
                              topic: Option<string>, image: Option<string>,
                              canonical: string -> Option<Kind>, refused: (Kind, string) -> bool, w: Wording,
                              prNumber: int, title: string, url: string, traceId: Option<string>)
    requires WellWorded(w)
    requires RenderAdoption(resourceType, name, project, location, topic, image, canonical, refused, w).Ok?
    ensures var r := RenderAdoption(resourceType, name, project, location, topic, image, canonical, refused, w).value;
            BuildPendingApproval(prNumber, title, url, Some(r.body), traceId)
            == PendingApproval(prNumber, title, url, AssetType(canonical(resourceType).value), name,
                               if traceId.Some? && IsTraceId(traceId.value) then traceId.value else "")
  {
    AdoptionReadsBack(resourceType, name, project, location, topic, image, canonical, refused, w);
  }

  lemma AssetTypesAreNamed(kind: Kind)
    ensures AssetType(kind) != ""
  {
  }

  lemma TraceIdsExactly(s: string)
    ensures IsTraceId(s) <==> |s| == 32 && forall c :: c in s ==> '0' <= c <= '9' || 'a' <= c <= 'f'
  {
    assert forall i :: 0 <= i < |s| ==> s[i] in s;
  }

  /** For any body at all: the two resource fields are both given or both blank, given exactly when
      the body carries an id of some shape, and then they name that kind and the last segment; and
      a trace id is shown exactly when it has its wire shape. */
  lemma ApprovalFieldsExactly(prNumber: int, title: string, url: string, body: Option<string>, traceId: Option<string>)
    ensures var shown := BuildPendingApproval(prNumber, title, url, body, traceId);
            var id := if body.Some? then ExtractImportId(body.value) else None;
            && (shown.assetType != "" <==> id.Some? && exists kind :: HasShape(kind, id.value))
            && (shown.assetType == "" ==> shown.resourceName == "")
            && (forall kind :: id.Some? && HasShape(kind, id.value) ==>
                  && shown.assetType == AssetType(kind)
                  && shown.resourceName == LastSegment(id.value) != "")
            && (shown.authoringTraceId != ""
                <==> && traceId.Some? && |traceId.value| == 32
                     && forall c :: c in traceId.value ==> '0' <= c <= '9' || 'a' <= c <= 'f')
            && (shown.authoringTraceId != "" ==> traceId == Some(shown.authoringTraceId))
            && shown.prNumber == prNumber && shown.title == title && shown.url == url
  {
    AssetTypesAreNamed(Bucket);
    AssetTypesAreNamed(Topic);
    AssetTypesAreNamed(Subscription);
    AssetTypesAreNamed(Service);
    if traceId.Some? {
      TraceIdsExactly(traceId.value);
    }
    if body.Some? && ExtractImportId(body.value).Some? {
      OneShapePerId(ExtractImportId(body.value).value);
    }
  }

  lemma OneShapePerId(id: string)
    ensures forall kind, other :: HasShape(kind, id) && HasShape(other, id) ==> kind == other
    ensures forall kind :: HasShape(kind, id) ==> LastSegment(id) != ""
  {
    assert "topics"[0] != "subscriptions"[0];
  }

  /** Two different resources never share an import id. */
  lemma ImportIdsDiffer(kind: Kind, name: string, project: string, location: string,
                        kind': Kind, name': string, project': string, location': string)
    requires IsName(name) && IsProject(project) && (kind.Service? ==> IsLocation(location))
    requires IsName(name') && IsProject(project') && (kind'.Service? ==> IsLocation(location'))
    requires ImportId(kind, name, project, location) == ImportId(kind', name', project', location')
    ensures kind == kind' && name == name'
    ensures !kind.Bucket? ==> project == project'
    ensures kind.Service? ==> location == location'
  {
    NamesAreSegments(name, project, location);
    NamesAreSegments(name', project', location');
    ShapeOfImportId(kind, name, project, location, kind);
    ShapeOfImportId(kind', name', project', location', kind);
    IdSegmentsAre(kind, name, project, location);
    IdSegmentsAre(kind', name', project', location');
    assert IdSegments(kind, name, project, location) == IdSegments(kind', name', project', location');
  }

  // ----- Which names share a file ---------------------------------------------------------

  /** Two characters a slug cannot tell apart: the same letter in either case, the same digit, or
      any two of the remaining ones. */
  predicate SlugsAlike(x: char, y: char) {
    if IsAlphanumeric(x) && IsAlphanumeric(y)
    then x == y || (IsLetter(x) && IsLetter(y) && (x as int - y as int == 32 || y as int - x as int == 32))
    else !IsAlphanumeric(x) && !IsAlphanumeric(y)
  }

  lemma SlugCharsExactly(x: char, y: char)
    ensures SlugChar(x) == SlugChar(y) <==> SlugsAlike(x, y)
  {
  }

  /** Two names have one slug if and only if they are as long and alike in every position. */
  lemma SlugsExactly(a: string, b: string)
    ensures Slug(a) == Slug(b) <==> |a| == |b| && forall i :: 0 <= i < |a| ==> SlugsAlike(a[i], b[i])
  {
    forall i | 0 <= i < |a| && i < |b| ensures Slug(a)[i] == Slug(b)[i] <==> SlugsAlike(a[i], b[i]) {
      SlugCharsExactly(a[i], b[i]);
    }
  }

  lemma SharedEnds(pre: string, a: string, b: string, post: string)
    ensures pre + a + post == pre + b + post <==> a == b
  {
    if pre + a + post == pre + b + post {
      assert |a| == |b|;
      assert a == (pre + a + post)[|pre|..|pre| + |a|];
      assert b == (pre + b + post)[|pre|..|pre| + |b|];
    }
  }

  /** Two adoptions of one kind are written to the same file, under the same address, if and only
      if their names are alike in every position. */
  lemma AdoptionsShareFileExactly(kind: Kind, a: string, b: string, idA: string, idB: string, w: Wording)
    ensures var r, s := Render(kind, a, idA, w), Render(kind, b, idB, w);
            var alike := |a| == |b| && forall i :: 0 <= i < |a| ==> SlugsAlike(a[i], b[i]);
            && (r.path == s.path <==> alike)
            && (r.address == s.address <==> alike)
  {
    SlugsExactly(a, b);
    SharedEnds("iac/adopt_" + ShortName(kind) + "_", Slug(a), Slug(b), ".tf");
    SharedEnds(TypeName(kind) + ".adopt_", Slug(a), Slug(b), "");
    assert forall s: string :: s + "" == s;
  }

  // ----- Which ids an adoption can have ---------------------------------------------------

  function LastSegment(id: string): string {
    var parts := Segments(id);
    parts[|parts| - 1]
  }

  /** The segments a caller chooses are well formed. */
  predicate SegmentsFit(kind: Kind, id: string)
    requires HasShape(kind, id)
  {
    var parts := Segments(id);
    && IsName(parts[|parts| - 1])
    && (!kind.Bucket? ==> IsProject(parts[1]))
    && (kind.Service? ==> IsLocation(parts[3]))
  }

  function ProjectIn(kind: Kind, id: string): string
    requires HasShape(kind, id)
  {
    if kind.Bucket? then "" else Segments(id)[1]
  }

  function LocationIn(kind: Kind, id: string): string
    requires HasShape(kind, id)
  {
    if kind.Service? then Segments(id)[3] else ""
  }

  lemma SixRejoined(parts: seq<string>)
    requires |parts| == 6
    ensures Joined(parts) == parts[0] + "/" + (parts[1] + "/" + (parts[2] + "/" + (parts[3] + "/" + (parts[4] + "/" + parts[5]))))
  {
    assert parts[5..] == [parts[5]];
    assert forall i :: 0 <= i < 5 ==> parts[i..][0] == parts[i] && parts[i..][1..] == parts[i + 1..];
    assert Joined(parts[4..]) == parts[4] + "/" + parts[5];
    assert Joined(parts[3..]) == parts[3] + "/" + Joined(parts[4..]);
    assert Joined(parts[2..]) == parts[2] + "/" + Joined(parts[3..]);
    assert Joined(parts[1..]) == parts[1] + "/" + Joined(parts[2..]);
  }

  lemma FourRejoined(parts: seq<string>)
    requires |parts| == 4
    ensures Joined(parts) == parts[0] + "/" + (parts[1] + "/" + (parts[2] + "/" + parts[3]))
  {
    assert parts[3..] == [parts[3]];
    assert forall i :: 0 <= i < 3 ==> parts[i..][0] == parts[i] && parts[i..][1..] == parts[i + 1..];
    assert Joined(parts[2..]) == parts[2] + "/" + parts[3];
    assert Joined(parts[1..]) == parts[1] + "/" + Joined(parts[2..]);
  }

  lemma CollectionRejoined(id: string, project: string, collection: string, name: string)
    requires id == "projects" + "/" + (project + "/" + (collection + "/" + name))
    ensures id == "projects/" + project + ("/" + collection + "/") + name
  {
    assert "projects/" == "projects" + "/";
  }

  /** An id of a shape is the id of the segments it has. */
  lemma IdOfItsSegments(kind: Kind, id: string)
    requires HasShape(kind, id)
    ensures id == ImportId(kind, LastSegment(id), ProjectIn(kind, id), LocationIn(kind, id))
  {
    var parts := Segments(id);
    SegmentsRejoin(id);
    match kind
    case Bucket => assert parts == [parts[0]];
    case Topic =>
      FourRejoined(parts);
      CollectionRejoined(id, parts[1], "topics", parts[3]);
      assert "/topics/" == "/" + "topics" + "/";
    case Subscription =>
      FourRejoined(parts);
      CollectionRejoined(id, parts[1], "subscriptions", parts[3]);
      assert "/subscriptions/" == "/" + "subscriptions" + "/";
    case Service =>
      SixRejoined(parts);
      assert "/locations/" == "/" + "locations" + "/" && "/services/" == "/" + "services" + "/";
      assert "projects/" == "projects" + "/";
      Regroup("projects/", "projects", parts[1], "/locations/", "locations", parts[3], "/services/", "services", parts[5]);
  }

  /** An id the parser accepts can be made from well-formed parts if and only if the parts it has
      are well formed. */
  lemma MadeExactly(kind: Kind, id: string)
    requires HasShape(kind, id)
    ensures (exists name, project, location ::
               && IsName(name) && (kind.Bucket? || IsProject(project)) && (kind.Service? ==> IsLocation(location))
               && id == ImportId(kind, name, project, location))
            <==> SegmentsFit(kind, id)
  {
    if name, project, location :|
         && IsName(name) && (kind.Bucket? || IsProject(project)) && (kind.Service? ==> IsLocation(location))
         && id == ImportId(kind, name, project, location)
    {
      NamesAreSegments(name, project, location);
      IdSegmentsAre(kind, name, project, location);
    }
    if SegmentsFit(kind, id) {
      IdOfItsSegments(kind, id);
      assert ImportId(kind, LastSegment(id), ProjectIn(kind, id), LocationIn(kind, id)) == id;
    }
  }

  /** Parameters that give an id of well-formed parts. */
  lemma ParametersFor(kind: Kind, id: string)
    returns (project: string, location: Option<string>, topic: Option<string>, image: Option<string>)
    requires HasShape(kind, id) && SegmentsFit(kind, id)
    ensures IsProject(project) && ParametersFit(kind, project, location, topic, image)
    ensures id == ImportId(kind, LastSegment(id), project, if location.Some? then location.value else "")
  {
    IdOfItsSegments(kind, id);
    project := if kind.Bucket? then "project" else ProjectIn(kind, id);
    location := if kind.Bucket? then Some("US") else if kind.Service? then Some(LocationIn(kind, id)) else None;
    topic := if kind.Subscription? then Some("topic") else None;
    image := if kind.Service? then Some("image") else None;
    assert IsName("topic") && IsLocation("US") && IsImage("image") && IsProject("project");
  }

  ghost predicate IsAdoptionOf(id: string, resourceType: string, name: string, project: string, location: Option<string>,
                               topic: Option<string>, image: Option<string>,
                               canonical: string -> Option<Kind>, refused: (Kind, string) -> bool, w: Wording)
  {
    var r := RenderAdoption(resourceType, name, project, location, topic, image, canonical, refused, w);
    r.Ok? && r.value.importId == id
  }

  lemma IdOfAdoption(id: string, resourceType: string, name: string, project: string, location: Option<string>,
                     topic: Option<string>, image: Option<string>,
                     canonical: string -> Option<Kind>, refused: (Kind, string) -> bool, w: Wording)
    requires IsAdoptionOf(id, resourceType, name, project, location, topic, image, canonical, refused, w)
    ensures var kind := canonical(resourceType).value;
            HasShape(kind, id) && SegmentsFit(kind, id) && !refused(kind, LastSegment(id))
  {
    RendersExactly(resourceType, name, project, location, topic, image, canonical, refused, w);
    MadeIdFits(canonical(resourceType).value, name, project, if location.Some? then location.value else "");
  }

  lemma MadeIdFits(kind: Kind, name: string, project: string, location: string)
    requires IsName(name) && IsProject(project) && (kind.Service? ==> IsLocation(location))
    ensures var id := ImportId(kind, name, project, location);
            HasShape(kind, id) && SegmentsFit(kind, id) && LastSegment(id) == name
  {
    NamesAreSegments(name, project, location);
    ShapeOfImportId(kind, name, project, location, kind);
    IdSegmentsAre(kind, name, project, location);
  }

  lemma AdoptionOfId(id: string, kind: Kind, resourceType: string,
                     canonical: string -> Option<Kind>, refused: (Kind, string) -> bool, w: Wording)
    returns (project: string, location: Option<string>, topic: Option<string>, image: Option<string>)
    requires canonical(resourceType) == Some(kind) && HasShape(kind, id) && SegmentsFit(kind, id)
    requires !refused(kind, LastSegment(id))
    ensures IsAdoptionOf(id, resourceType, LastSegment(id), project, location, topic, image, canonical, refused, w)
  {
    project, location, topic, image := ParametersFor(kind, id);
    RendersExactly(resourceType, LastSegment(id), project, location, topic, image, canonical, refused, w);
  }

  /** The ids adoptions can have: those of the kind's shape with well-formed parts, unless the name
      is one no adoption may touch. The shape alone, which is all the parser asks for, does not
      make an id one the renderer could have produced. */
  lemma AdoptableIdsExactly(resourceType: string, id: string, kind: Kind,
                            canonical: string -> Option<Kind>, refused: (Kind, string) -> bool, w: Wording)
    requires canonical(resourceType) == Some(kind)
    ensures (exists name, project, location, topic, image ::
               IsAdoptionOf(id, resourceType, name, project, location, topic, image, canonical, refused, w))
            <==> HasShape(kind, id) && SegmentsFit(kind, id) && !refused(kind, LastSegment(id))
  {
    if name, project, location, topic, image :|
         IsAdoptionOf(id, resourceType, name, project, location, topic, image, canonical, refused, w)
    {
      IdOfAdoption(id, resourceType, name, project, location, topic, image, canonical, refused, w);
    }
    if HasShape(kind, id) && SegmentsFit(kind, id) && !refused(kind, LastSegment(id)) {
      var project, location, topic, image := AdoptionOfId(id, kind, resourceType, canonical, refused, w);
    }
  }

  /** So the parser accepts ids no adoption has: any whose name is not one, say. */
  lemma ParserAcceptsMore(resourceType: string, kind: Kind, canonical: string -> Option<Kind>,
                          refused: (Kind, string) -> bool, w: Wording)
    requires canonical(resourceType) == Some(kind)
    ensures ImportIdToResource("*") == Some(Resource(AssetType(Bucket), "*"))
    ensures !exists name, project, location, topic, image ::
              IsAdoptionOf("*", resourceType, name, project, location, topic, image, canonical, refused, w)
  {
    IdReadsBack(Bucket, "*", "", "");
    SegmentsOfOne("*");
    assert !IsName("*");
    AdoptableIdsExactly(resourceType, "*", kind, canonical, refused, w);
  }
}
