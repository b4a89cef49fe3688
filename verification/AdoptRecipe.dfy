/** Rendering the pull request that adopts one live resource: the parameters it accepts, the import
    id it derives, and the body that carries it. */
module AdoptRecipe {
  import opened Wrappers
  import opened BoundedText

  datatype Kind = Bucket | Topic | Subscription | Service

  function AssetType(kind: Kind): string {
    match kind
    case Bucket => "storage.googleapis.com/Bucket"
    case Topic => "pubsub.googleapis.com/Topic"
    case Subscription => "pubsub.googleapis.com/Subscription"
    case Service => "run.googleapis.com/Service"
  }

  function TypeName(kind: Kind): string {
    match kind
    case Bucket => "google_storage_bucket"
    case Topic => "google_pubsub_topic"
    case Subscription => "google_pubsub_subscription"
    case Service => "google_cloud_run_v2_service"
  }

  function ShortName(kind: Kind): string {
    match kind
    case Bucket => "bucket"
    case Topic => "topic"
    case Subscription => "subscription"
    case Service => "service"
  }

  function Human(kind: Kind): string {
    match kind
    case Bucket => "Cloud Storage bucket"
    case Topic => "Pub/Sub topic"
    case Subscription => "Pub/Sub subscription"
    case Service => "Cloud Run service"
  }

  // ----- Parameter shapes -----------------------------------------------------------------

  predicate IsLower(c: char) { 'a' <= c <= 'z' }
  predicate IsLetter(c: char) { IsLower(c) || 'A' <= c <= 'Z' }
  predicate IsDigit(c: char) { '0' <= c <= '9' }
  predicate IsAlphanumeric(c: char) { IsLetter(c) || IsDigit(c) }

  predicate IsNameChar(c: char) {
    IsAlphanumeric(c) || c == '.' || c == '_' || c == '~' || c == '+' || c == '%' || c == '-'
  }

  predicate IsName(s: string) {
    1 <= |s| <= 254 && IsAlphanumeric(s[0]) && forall i :: 0 <= i < |s| ==> IsNameChar(s[i])
  }

  predicate IsLocation(s: string) {
    2 <= |s| <= 31 && IsLetter(s[0]) && forall i :: 0 <= i < |s| ==> IsAlphanumeric(s[i]) || s[i] == '-'
  }

  predicate IsImageChar(c: char) {
    IsAlphanumeric(c) || c == '.' || c == '_' || c == ':' || c == '@' || c == '/' || c == '-'
  }

  predicate IsImage(s: string) {
    3 <= |s| <= 512 && IsAlphanumeric(s[0]) && forall i :: 0 <= i < |s| ==> IsImageChar(s[i])
  }

  predicate IsProject(s: string) {
    && 6 <= |s| <= 30 && IsLower(s[0]) && (IsLower(s[|s| - 1]) || IsDigit(s[|s| - 1]))
    && forall i :: 0 <= i < |s| ==> IsLower(s[i]) || IsDigit(s[i]) || s[i] == '-'
  }

  /** Characters no parameter may hold. */
  predicate IsBanned(s: string) {
    || '"' in s || '\n' in s || '\\' in s || ' ' in s
    || exists i :: 0 <= i < |s| - 1 && s[i] == '$' && s[i + 1] == '{'
  }

  // ----- Import ids -----------------------------------------------------------------------

  /** The parts between slashes. */
  function Segments(s: string): (parts: seq<string>)
    ensures parts != []
  {
    if s == "" then [""]
    else
      var rest := Segments(s[1..]);
      if s[0] == '/' then [""] + rest else [[s[0]] + rest[0]] + rest[1..]
  }

  predicate IsSegment(s: string) {
    s != "" && forall i :: 0 <= i < |s| ==> !IsSpace(s[i]) && s[i] != '/'
  }

  predicate HasShape(kind: Kind, id: string) {
    var parts := Segments(id);
    (forall i :: 0 <= i < |parts| ==> IsSegment(parts[i]))
    && match kind
       case Bucket => |parts| == 1
       case Topic => |parts| == 4 && parts[0] == "projects" && parts[2] == "topics"
       case Subscription => |parts| == 4 && parts[0] == "projects" && parts[2] == "subscriptions"
       case Service => |parts| == 6 && parts[0] == "projects" && parts[2] == "locations" && parts[4] == "services"
  }

  function ImportId(kind: Kind, name: string, project: string, location: string): string {
    match kind
    case Bucket => name
    case Topic => "projects/" + project + "/topics/" + name
    case Subscription => "projects/" + project + "/subscriptions/" + name
    case Service => "projects/" + project + "/locations/" + location + "/services/" + name
  }

  predicate SlashFree(s: string) {
    forall i :: 0 <= i < |s| ==> s[i] != '/'
  }

  lemma {:induction false} SegmentsOfOne(a: string)
    requires SlashFree(a)
    ensures Segments(a) == [a]
  {
    if a != "" {
      SegmentsOfOne(a[1..]);
      assert a == [a[0]] + a[1..];
    }
  }

  lemma {:induction false} SegmentsOfTwo(a: string, b: string)
    requires SlashFree(a)
    ensures Segments(a + "/" + b) == [a] + Segments(b)
  {
    var s := a + "/" + b;
    if a == "" {
      assert s[1..] == b;
    } else {
      SegmentsOfTwo(a[1..], b);
      assert s[1..] == a[1..] + "/" + b;
      assert Segments(s) == [[a[0]] + a[1..]] + Segments(b);
      assert a == [a[0]] + a[1..];
    }
  }

  lemma FixedSegments()
    ensures IsSegment("projects") && IsSegment("topics") && IsSegment("subscriptions")
    ensures IsSegment("locations") && IsSegment("services")
  {
  }

  lemma NamesAreSegments(name: string, project: string, location: string)
    ensures IsName(name) ==> IsSegment(name)
    ensures IsProject(project) ==> IsSegment(project)
    ensures IsLocation(location) ==> IsSegment(location)
  {
  }

  lemma FourSegments(a: string, b: string, c: string, d: string)
    requires IsSegment(a) && IsSegment(b) && IsSegment(c) && IsSegment(d)
    ensures Segments(a + "/" + (b + "/" + (c + "/" + d))) == [a, b, c, d]
  {
    SegmentsOfTwo(a, b + "/" + (c + "/" + d));
    SegmentsOfTwo(b, c + "/" + d);
    SegmentsOfTwo(c, d);
    SegmentsOfOne(d);
  }

  /** The segments of an id, whatever its kind. */
  function IdSegments(kind: Kind, name: string, project: string, location: string): seq<string> {
    match kind
    case Bucket => [name]
    case Topic => ["projects", project, "topics", name]
    case Subscription => ["projects", project, "subscriptions", name]
    case Service => ["projects", project, "locations", location, "services", name]
  }

  lemma SixSegments(a: string, b: string, c: string, d: string, e: string, f: string)
    requires IsSegment(a) && IsSegment(b) && IsSegment(c) && IsSegment(d) && IsSegment(e) && IsSegment(f)
    ensures Segments(a + "/" + (b + "/" + (c + "/" + (d + "/" + (e + "/" + f))))) == [a, b, c, d, e, f]
  {
    var rest := c + "/" + (d + "/" + (e + "/" + f));
    FourSegments(c, d, e, f);
    SegmentsOfTwo(b, rest);
    SegmentsOfTwo(a, b + "/" + rest);
  }

  lemma CollectionId(pre: string, project: string, mid: string, collection: string, name: string)
    requires IsSegment(project) && IsSegment(collection) && IsSegment(name)
    requires pre == "projects" + "/" && mid == "/" + collection + "/"
    ensures Segments(pre + project + mid + name) == ["projects", project, collection, name]
  {
    FixedSegments();
    FourSegments("projects", project, collection, name);
    assert pre + project + mid + name == "projects" + "/" + (project + "/" + (collection + "/" + name));
  }

  lemma Regroup(pre: string, a: string, b: string, mid: string, c: string, d: string, last: string, e: string, f: string)
    requires pre == a + "/" && mid == "/" + c + "/" && last == "/" + e + "/"
    ensures pre + b + mid + d + last + f == a + "/" + (b + "/" + (c + "/" + (d + "/" + (e + "/" + f))))
  {
  }

  lemma IdSegmentsAre(kind: Kind, name: string, project: string, location: string)
    requires IsSegment(name) && (kind.Bucket? || IsSegment(project)) && (kind.Service? ==> IsSegment(location))
    ensures Segments(ImportId(kind, name, project, location)) == IdSegments(kind, name, project, location)
  {
    FixedSegments();
    assert "projects/" == "projects" + "/";
    match kind
    case Bucket => SegmentsOfOne(name);
    case Topic =>
      assert "/topics/" == "/" + "topics" + "/";
      CollectionId("projects/", project, "/topics/", "topics", name);
    case Subscription =>
      assert "/subscriptions/" == "/" + "subscriptions" + "/";
      CollectionId("projects/", project, "/subscriptions/", "subscriptions", name);
    case Service =>
      SixSegments("projects", project, "locations", location, "services", name);
      assert "/locations/" == "/" + "locations" + "/" && "/services/" == "/" + "services" + "/";
      Regroup("projects/", "projects", project, "/locations/", "locations", location, "/services/", "services", name);
  }

  /** Every derived id has its own kind's shape, and no other kind's. */
  lemma ShapeOfImportId(kind: Kind, name: string, project: string, location: string, other: Kind)
    requires IsSegment(name) && (kind.Bucket? || IsSegment(project)) && (kind.Service? ==> IsSegment(location))
    ensures HasShape(other, ImportId(kind, name, project, location)) <==> other == kind
  {
    FixedSegments();
    IdSegmentsAre(kind, name, project, location);
    assert "topics"[0] != "subscriptions"[0];
  }

  // ----- A subscription's topic -----------------------------------------------------------

  datatype RecipeError =
    | NotAdoptable | InvalidProject | ForbiddenCharacter | InvalidName | ControlPlane | NotApplicable
    | LocationMissing | TopicMissing | ImageMissing | InvalidLocation | InvalidImage | InvalidTopic
    | CrossProject | ShapeMismatch

  function ValidateTopicShort(topic: string): Result<string, RecipeError> {
    if IsBanned(topic) then Err(ForbiddenCharacter)
    else if !IsName(topic) then Err(InvalidTopic)
    else Ok(topic)
  }

  /** The short name, from itself or from a full path in the same project. */
  function NormalizeTopic(topic: string, project: string): Result<string, RecipeError> {
    if IsBanned(topic) then Err(ForbiddenCharacter)
    else if HasShape(Topic, topic) then
      if Segments(topic)[1] != project then Err(CrossProject) else ValidateTopicShort(Segments(topic)[3])
    else ValidateTopicShort(topic)
  }

  lemma NamesAreNotBanned(s: string)
    requires forall i :: 0 <= i < |s| ==> IsNameChar(s[i]) || s[i] == '/'
    ensures !IsBanned(s)
  {
  }

  /** A name is accepted in exactly two spellings, and both give the name. */
  lemma TwoSpellings(topic: string, project: string, name: string)
    requires IsProject(project)
    ensures NormalizeTopic(topic, project) == Ok(name)
            <==> IsName(name) && (topic == name || topic == ImportId(Topic, name, project, ""))
  {
    NamesAreSegments(name, project, "");
    if IsName(name) {
      ShapeOfImportId(Topic, name, project, "", Topic);
      IdSegmentsAre(Topic, name, project, "");
      SegmentsOfOne(name);
      NamesAreNotBanned(name);
      FullPathNotBanned(name, project);
    }
    if NormalizeTopic(topic, project) == Ok(name) && HasShape(Topic, topic) {
      JoinedSegments(topic);
    }
  }

  lemma FullPathNotBanned(name: string, project: string)
    requires IsName(name) && IsProject(project)
    ensures !IsBanned(ImportId(Topic, name, project, ""))
  {
    var id := "projects/" + project + "/topics/" + name;
    assert forall i :: 0 <= i < |"projects/"| ==> IsNameChar("projects/"[i]) || "projects/"[i] == '/';
    assert forall i :: 0 <= i < |"/topics/"| ==> IsNameChar("/topics/"[i]) || "/topics/"[i] == '/';
    NamesAreNotBanned(id);
  }

  function Joined(parts: seq<string>): string {
    if parts == [] then "" else if |parts| == 1 then parts[0] else parts[0] + "/" + Joined(parts[1..])
  }

  lemma {:induction false} SegmentsRejoin(s: string)
    ensures Joined(Segments(s)) == s
  {
    if s != "" {
      var rest := Segments(s[1..]);
      SegmentsRejoin(s[1..]);
      assert s == [s[0]] + s[1..];
      assert s[0] == '/' ==> Segments(s)[1..] == rest;
      assert s[0] != '/' ==> Segments(s)[1..] == rest[1..];
    }
  }

  lemma JoinedSegments(topic: string)
    requires HasShape(Topic, topic)
    ensures topic == ImportId(Topic, Segments(topic)[3], Segments(topic)[1], "")
  {
    var parts := Segments(topic);
    SegmentsRejoin(topic);
    assert parts[1..][1..] == parts[2..] && parts[2..][1..] == parts[3..] == [parts[3]];
    assert Joined(parts[3..]) == parts[3];
    assert Joined(parts[2..]) == parts[2] + "/" + parts[3];
    assert Joined(parts[1..]) == parts[1] + "/" + (parts[2] + "/" + parts[3]);
    assert "projects" + "/" == "projects/" && "/" + "topics" + "/" == "/topics/";
  }

  // ----- The pull request -----------------------------------------------------------------

  /** Lower case, and an underscore for everything that is not a letter or a digit. */
  function SlugChar(c: char): char {
    if 'A' <= c <= 'Z' then (c as int + 32) as char
    else if IsLower(c) || IsDigit(c) then c
    else '_'
  }

  function Slug(name: string): string {
    seq(|name|, i requires 0 <= i < |name| => SlugChar(name[i]))
  }

  const IMPORT_LABEL := "**Import id:**"

  /** The fixed wording of the body, cut where something variable or something bold stands. */
  datatype Wording = Wording(
    adopt: string, quote: string, into: string,
    what: string, brings: string, under: string,
    why: string, because: string,
    address: string, file: string, rest: string)

  const UNDER := "` under OpenTofu management " + "via a zero-change import.\n\n"
  const NOT_TRACKED := "The resource already exists in GCP " + "but is not tracked in IaC state. "
  const IMPORTED := "This PR adds it to the IaC " + "configuration and imports it — "
  const UNMODIFIED := "nothing in the cloud " + "will be modified.\n\n"

  /** The shipped wording, apart from the fixed paragraphs below the file's path. */
  const SHIPPED := Wording(
    "## Adopt ", " `", "` into IaC management\n\n",
    "**What:** ", "Brings the existing live ", UNDER,
    "**Why:** ", NOT_TRACKED + IMPORTED + UNMODIFIED,
    "\n\n**HCL address:** `", "`\n\n**File:** `", "`\n\n")

  function Heading(w: Wording, human: string, name: string): string {
    w.adopt + human + w.quote + name + w.into
  }

  function Purpose(w: Wording, human: string, name: string): string {
    w.brings + human + w.quote + name + w.under
  }

  /** Everything above the import id. */
  function BodyHead(w: Wording, human: string, name: string): string {
    Heading(w, human, name) + w.what + Purpose(w, human, name) + w.why + w.because
  }

  function BodyTail(w: Wording, address: string, path: string): string {
    w.address + address + w.file + path + w.rest
  }

  function Body(w: Wording, human: string, name: string, importId: string, address: string, path: string): string {
    BodyHead(w, human, name) + (IMPORT_LABEL + " `" + importId + "`" + BodyTail(w, address, path))
  }

  datatype Rendering = Rendering(path: string, address: string, importId: string, title: string, body: string)

  predicate Present(value: Option<string>) {
    value.Some? && value.value != ""
  }

  /** What a kind asks of the three optional parameters. */
  function CheckParameters(kind: Kind, project: string, location: Option<string>, topic: Option<string>,
                           image: Option<string>): Option<RecipeError>
  {
    match kind
    case Bucket =>
      if Present(topic) || Present(image) then Some(NotApplicable)
      else if !Present(location) then Some(LocationMissing)
      else CheckLocation(location.value)
    case Topic =>
      if Present(location) || Present(image) || Present(topic) then Some(NotApplicable) else None
    case Subscription =>
      if Present(location) || Present(image) then Some(NotApplicable)
      else if !Present(topic) then Some(TopicMissing)
      else var r := NormalizeTopic(topic.value, project); if r.Err? then Some(r.error) else None
    case Service =>
      if Present(topic) then Some(NotApplicable)
      else if !Present(location) then Some(LocationMissing)
      else if !Present(image) then Some(ImageMissing)
      else if CheckLocation(location.value).Some? then CheckLocation(location.value)
      else if IsBanned(image.value) then Some(ForbiddenCharacter)
      else if !IsImage(image.value) then Some(InvalidImage)
      else None
  }

  function CheckLocation(location: string): Option<RecipeError> {
    if IsBanned(location) then Some(ForbiddenCharacter)
    else if !IsLocation(location) then Some(InvalidLocation)
    else None
  }

  /** `canonical` reads a resource type or one of its friendly names; `refused` holds the
      identities no adoption may touch. */
  function RenderAdoption(resourceType: string, name: string, project: string, location: Option<string>,
                          topic: Option<string>, image: Option<string>,
                          canonical: string -> Option<Kind>, refused: (Kind, string) -> bool, w: Wording)
    : Result<Rendering, RecipeError>
  {
    if canonical(resourceType).None? then Err(NotAdoptable)
    else
      var kind := canonical(resourceType).value;
      if !IsProject(project) then Err(InvalidProject)
      else if IsBanned(name) then Err(ForbiddenCharacter)
      else if !IsName(name) then Err(InvalidName)
      else if refused(kind, name) then Err(ControlPlane)
      else if CheckParameters(kind, project, location, topic, image).Some?
      then Err(CheckParameters(kind, project, location, topic, image).value)
      else
        var r := Render(kind, name, ImportId(kind, name, project, if location.Some? then location.value else ""), w);
        if HasShape(kind, r.importId) then Ok(r) else Err(ShapeMismatch)
  }

  function Render(kind: Kind, name: string, importId: string, w: Wording): Rendering {
    var address := TypeName(kind) + ".adopt_" + Slug(name);
    var path := "iac/adopt_" + ShortName(kind) + "_" + Slug(name) + ".tf";
    Rendering(path, address, importId,
              "Adopt " + Human(kind) + " " + name + " into IaC management (zero-change import)",
              Body(w, Human(kind), name, importId, address, path))
  }

  /** What is accepted: for each kind its own parameters, well formed, and none of the others'. */
  ghost predicate ParametersFit(kind: Kind, project: string, location: Option<string>, topic: Option<string>,
                                image: Option<string>)
  {
    && (kind.Topic? || kind.Subscription? ==> !Present(location))
    && (kind.Bucket? || kind.Service? ==> location.Some? && IsLocation(location.value))
    && (kind.Service? ==> image.Some? && IsImage(image.value))
    && (!kind.Service? ==> !Present(image))
    && (!kind.Subscription? ==> !Present(topic))
    && (kind.Subscription? ==>
          && Present(topic)
          && exists name :: IsName(name) && (topic.value == name || topic.value == ImportId(Topic, name, project, "")))
  }

  lemma ParametersFitExactly(kind: Kind, project: string, location: Option<string>, topic: Option<string>,
                             image: Option<string>)
    requires IsProject(project)
    ensures CheckParameters(kind, project, location, topic, image).None?
            <==> ParametersFit(kind, project, location, topic, image)
  {
    if kind.Subscription? && Present(topic) {
      var r := NormalizeTopic(topic.value, project);
      if r.Ok? {
        TwoSpellings(topic.value, project, r.value);
      }
      if name :| IsName(name) && (topic.value == name || topic.value == ImportId(Topic, name, project, "")) {
        TwoSpellings(topic.value, project, name);
      }
    }
    if location.Some? {
      LocationsAreNotBanned(location.value);
    }
    if image.Some? {
      ImagesAreNotBanned(image.value);
    }
  }

  lemma LocationsAreNotBanned(s: string)
    ensures IsLocation(s) ==> !IsBanned(s)
  {
  }

  lemma ImagesAreNotBanned(s: string)
    ensures IsImage(s) ==> !IsBanned(s)
  {
  }

  lemma ImportIdHasShape(kind: Kind, name: string, project: string, location: Option<string>)
    requires IsProject(project) && IsName(name)
    requires kind.Service? ==> location.Some? && IsLocation(location.value)
    ensures HasShape(kind, ImportId(kind, name, project, if location.Some? then location.value else ""))
  {
    var where := if location.Some? then location.value else "";
    NamesAreSegments(name, project, where);
    ShapeOfImportId(kind, name, project, where, kind);
  }

  /** Rendering succeeds exactly on well-formed parameters; the shape check at the end never
      fails. */
  lemma RendersExactly(resourceType: string, name: string, project: string, location: Option<string>,
                       topic: Option<string>, image: Option<string>,
                       canonical: string -> Option<Kind>, refused: (Kind, string) -> bool, w: Wording)
    ensures var r := RenderAdoption(resourceType, name, project, location, topic, image, canonical, refused, w);
            var kind := canonical(resourceType);
            && (r.Ok? <==> && kind.Some? && IsProject(project) && IsName(name) && !refused(kind.value, name)
                           && ParametersFit(kind.value, project, location, topic, image))
            && r != Err(ShapeMismatch)
  {
    var kind := canonical(resourceType);
    if kind.Some? && IsProject(project) && IsName(name) {
      NamesAreNotBanned(name);
      ParametersFitExactly(kind.value, project, location, topic, image);
      if ParametersFit(kind.value, project, location, topic, image) {
        ImportIdHasShape(kind.value, name, project, location);
      }
    }
  }
}
