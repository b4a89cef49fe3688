/** What an adoption's parameters, refusals, texts and ids are, spelled out for a reader who knows
    none of the functions that compute them. */
module AdoptAnswers {
  import opened Wrappers
  import opened BoundedText
  import opened AdoptRecipe
  import opened PendingApprovals

  // ----- Shapes of parameters -------------------------------------------------------------

  /** A name: a letter or digit, then at most 253 characters of its own alphabet. */
  lemma NamesExactly(s: string)
    ensures IsName(s) <==> exists c, rest :: s == [c] + rest && IsAlphanumeric(c) && |rest| <= 253
                                             && forall x :: x in rest ==> IsAlphanumeric(x) || x in "._~+%-"
  {
    if s != "" {
      assert s == [s[0]] + s[1..];
      assert forall i :: 1 <= i < |s| ==> s[i] == s[1..][i - 1];
    }
  }

  /** A location: a letter, then one to thirty letters, digits and hyphens. */
  lemma LocationsExactly(s: string)
    ensures IsLocation(s) <==> exists c, rest :: s == [c] + rest && IsLetter(c) && 1 <= |rest| <= 30
                                                 && forall x :: x in rest ==> IsAlphanumeric(x) || x == '-'
  {
    if s != "" {
      assert s == [s[0]] + s[1..];
      assert forall i :: 1 <= i < |s| ==> s[i] == s[1..][i - 1];
    }
  }

  /** An image reference: a letter or digit, then 2 to 511 characters of its own alphabet. */
  lemma ImagesExactly(s: string)
    ensures IsImage(s) <==> exists c, rest :: s == [c] + rest && IsAlphanumeric(c) && 2 <= |rest| <= 511
                                              && forall x :: x in rest ==> IsAlphanumeric(x) || x in "._:@/-"
  {
    if s != "" {
      assert s == [s[0]] + s[1..];
      assert forall i :: 1 <= i < |s| ==> s[i] == s[1..][i - 1];
    }
  }

  /** A project id: a lower-case letter, 4 to 28 lower-case letters, digits and hyphens, and one
      more letter or digit. */
  lemma ProjectsExactly(s: string)
    ensures IsProject(s) <==> exists c, mid, d :: s == [c] + mid + [d] && ProjectParts(c, mid, d)
  {
    if IsProject(s) {
      var n := |s| - 1;
      assert s == [s[0]] + s[1..n] + [s[n]];
      assert forall x :: x in s[1..n] ==> x in s;
      assert ProjectParts(s[0], s[1..n], s[n]);
    }
    if c, mid, d :| s == [c] + mid + [d] && ProjectParts(c, mid, d) {
      PartsAreProject(s, c, mid, d);
    }
  }

  ghost predicate ProjectParts(c: char, mid: string, d: char) {
    && IsLower(c) && (IsLower(d) || IsDigit(d)) && 4 <= |mid| <= 28
    && forall x :: x in mid ==> IsLower(x) || IsDigit(x) || x == '-'
  }

  lemma PartsAreProject(s: string, c: char, mid: string, d: char)
    requires s == [c] + mid + [d] && ProjectParts(c, mid, d)
    ensures IsProject(s)
  {
    forall i | 0 <= i < |s| ensures IsLower(s[i]) || IsDigit(s[i]) || s[i] == '-' {
      assert s[i] == if i == 0 then c else if i == |s| - 1 then d else mid[i - 1];
    }
  }

  // ----- Ids ------------------------------------------------------------------------------

  /** The four shapes of an id, as text, and what each reads back to. */
  ghost predicate Names(id: string, assetType: string, name: string) {
    || (IsSegment(name) && id == name && assetType == "storage.googleapis.com/Bucket")
    || (exists p :: && IsSegment(p) && IsSegment(name) && id == "projects/" + p + "/topics/" + name
                    && assetType == "pubsub.googleapis.com/Topic")
    || (exists p :: && IsSegment(p) && IsSegment(name) && id == "projects/" + p + "/subscriptions/" + name
                    && assetType == "pubsub.googleapis.com/Subscription")
    || (exists p, l :: && IsSegment(p) && IsSegment(l) && IsSegment(name)
                       && id == "projects/" + p + "/locations/" + l + "/services/" + name
                       && assetType == "run.googleapis.com/Service")
  }

  /** An id reads back to a type and a name if and only if it is written for them. */
  lemma IdReadsExactly(id: string, assetType: string, name: string)
    ensures ImportIdToResource(id) == Some(Resource(assetType, name)) <==> Names(id, assetType, name)
  {
    if Names(id, assetType, name) {
      NamedIdReads(id, assetType, name);
    }
    if ImportIdToResource(id) == Some(Resource(assetType, name)) {
      ReadIdNames(id, assetType, name);
    }
  }

  lemma NamedIdReads(id: string, assetType: string, name: string)
    requires Names(id, assetType, name)
    ensures ImportIdToResource(id) == Some(Resource(assetType, name))
  {
    if id == name && assetType == "storage.googleapis.com/Bucket" {
      IdReadsBack(Bucket, name, "", "");
    } else if p :| IsSegment(p) && id == "projects/" + p + "/topics/" + name && assetType == "pubsub.googleapis.com/Topic" {
      IdReadsBack(Topic, name, p, "");
    } else if p :| && IsSegment(p) && id == "projects/" + p + "/subscriptions/" + name
                   && assetType == "pubsub.googleapis.com/Subscription" {
      IdReadsBack(Subscription, name, p, "");
    } else {
      var p, l :| IsSegment(p) && IsSegment(l) && id == "projects/" + p + "/locations/" + l + "/services/" + name;
      IdReadsBack(Service, name, p, l);
    }
  }

  lemma ReadIdNames(id: string, assetType: string, name: string)
    requires ImportIdToResource(id) == Some(Resource(assetType, name))
    ensures Names(id, assetType, name)
  {
    var parts := Segments(id);
    assert IsSegment(parts[|parts| - 1]);
    if HasShape(Bucket, id) {
      IdOfItsSegments(Bucket, id);
    } else if HasShape(Topic, id) {
      IdOfItsSegments(Topic, id);
      assert IsSegment(parts[1]);
    } else if HasShape(Subscription, id) {
      IdOfItsSegments(Subscription, id);
      assert IsSegment(parts[1]);
    } else {
      IdOfItsSegments(Service, id);
      assert IsSegment(parts[1]) && IsSegment(parts[3]);
    }
  }

  /** The label, whitespace, and the id between backticks. */
  ghost predicate Labelled(s: string, id: string) {
    && id != "" && '`' !in id
    && exists gap, rest :: Blanks(gap) && s == "**Import id:**" + gap + "`" + id + "`" + rest
  }

  ghost predicate Blanks(s: string) {
    forall i :: 0 <= i < |s| ==> IsSpace(s[i])
  }

  lemma {:induction false} SpaceRunOf(gap: string, rest: string)
    requires Blanks(gap) && (rest == "" || !IsSpace(rest[0]))
    ensures SpaceRun(gap + rest) == |gap|
  {
    if gap == "" {
      assert gap + rest == rest;
    } else {
      SpaceRunOf(gap[1..], rest);
      assert (gap + rest)[1..] == gap[1..] + rest;
    }
  }

  lemma {:induction false} SpaceRunBlanks(s: string)
    ensures Blanks(s[..SpaceRun(s)])
  {
    if s != "" && IsSpace(s[0]) {
      SpaceRunBlanks(s[1..]);
      var n := SpaceRun(s[1..]);
      assert s[..n + 1] == [s[0]] + s[1..][..n];
    }
  }

  lemma {:induction false} NoBacktickBefore(s: string)
    ensures '`' !in s[..BacktickFree(s)]
  {
    if s != "" && s[0] != '`' {
      NoBacktickBefore(s[1..]);
      var n := BacktickFree(s[1..]);
      assert s[..n + 1] == [s[0]] + s[1..][..n];
    }
  }

  lemma LabelledReads(s: string, id: string)
    requires Labelled(s, id)
    ensures IdHere(s) == Some(id)
  {
    var gap, rest :| Blanks(gap) && s == "**Import id:**" + gap + "`" + id + "`" + rest;
    var quoted := "`" + id + "`" + rest;
    QuotedReads(s, gap, quoted, id, rest);
  }

  lemma QuotedReads(s: string, gap: string, quoted: string, id: string, rest: string)
    requires id != "" && '`' !in id && Blanks(gap)
    requires quoted == "`" + id + "`" + rest && s == IMPORT_LABEL + gap + "`" + id + "`" + rest
    ensures IdHere(s) == Some(id)
  {
    AfterLabel(s, IMPORT_LABEL, gap, quoted, id, rest);
    assert !IsSpace(quoted[0]);
    SpaceRunOf(gap, quoted);
    BacktickFreeOf(id, rest);
  }

  lemma AfterLabel(s: string, tag: string, gap: string, quoted: string, id: string, rest: string)
    requires quoted == "`" + id + "`" + rest && s == tag + gap + "`" + id + "`" + rest
    ensures tag <= s && s[|tag|..] == gap + quoted && (gap + quoted)[|gap|..] == quoted
    ensures quoted[0] == '`' && quoted[1..] == id + "`" + rest && quoted[1..|id| + 1] == id
  {
    assert s == tag + (gap + quoted);
  }

  lemma ReadIsLabelled(s: string, id: string)
    requires IdHere(s) == Some(id)
    ensures Labelled(s, id)
  {
    var after := s[|IMPORT_LABEL|..];
    var k := SpaceRun(after);
    var quoted := after[k..];
    var n := BacktickFree(quoted[1..]);
    SpaceRunBlanks(after);
    NoBacktickBefore(quoted[1..]);
    assert quoted[1..][..n] == id && quoted[1..][n] == '`';
    Requoted(s, after, k, quoted, n, id);
  }

  lemma Requoted(s: string, after: string, k: nat, quoted: string, n: nat, id: string)
    requires IMPORT_LABEL <= s && after == s[|IMPORT_LABEL|..] && k <= |after| && quoted == after[k..]
    requires n + 1 < |quoted| && quoted[0] == '`' && quoted[n + 1] == '`' && quoted[1..n + 1] == id
    ensures s == IMPORT_LABEL + after[..k] + "`" + id + "`" + quoted[n + 2..]
  {
    Quoted(quoted, n, id);
    Regrouped(s, IMPORT_LABEL, after, k, quoted, id, quoted[n + 2..]);
  }

  lemma Quoted(quoted: string, n: nat, id: string)
    requires n + 1 < |quoted| && quoted[0] == '`' && quoted[n + 1] == '`' && quoted[1..n + 1] == id
    ensures quoted == "`" + id + "`" + quoted[n + 2..]
  {
  }

  lemma Regrouped(s: string, tag: string, after: string, k: nat, quoted: string, id: string, rest: string)
    requires tag <= s && after == s[|tag|..] && k <= |after| && quoted == after[k..] == "`" + id + "`" + rest
    ensures s == tag + after[..k] + "`" + id + "`" + rest
  {
    assert s == tag + after && after == after[..k] + quoted;
  }

  /** A labelled id stands at `i`, and none before. */
  ghost predicate FirstLabelled(body: string, id: string, i: int) {
    && 0 <= i < |body| && Labelled(body[i..], id)
    && forall j, other :: 0 <= j < i ==> !Labelled(body[j..], other)
  }

  lemma IdHereExactly(s: string, id: string)
    ensures IdHere(s) == Some(id) <==> Labelled(s, id)
  {
    if Labelled(s, id) {
      LabelledReads(s, id);
    }
    if IdHere(s) == Some(id) {
      ReadIsLabelled(s, id);
    }
  }

  /** The parser finds an id if and only if it stands, labelled, somewhere in the body, and nothing
      before it is a labelled id. */
  lemma {:induction false} ExtractsExactly(body: string, id: string)
    ensures ExtractImportId(body) == Some(id) <==> exists i :: FirstLabelled(body, id, i)
  {
    if body != "" {
      forall other ensures IdHere(body) == Some(other) <==> Labelled(body, other) {
        IdHereExactly(body, other);
      }
      if IdHere(body).Some? {
        LabelledFirst(body, IdHere(body).value, id);
      } else {
        ExtractsExactly(body[1..], id);
        Shifted(body, id);
      }
    }
  }

  lemma LabelledFirst(body: string, here: string, id: string)
    requires body != "" && Labelled(body, here)
    requires forall other :: Labelled(body, other) ==> other == here
    ensures (exists i :: FirstLabelled(body, id, i)) <==> id == here
  {
    assert body[0..] == body;
    assert Labelled(body[0..], here) && FirstLabelled(body, here, 0);
  }

  lemma Shifted(body: string, id: string)
    requires body != "" && forall other :: !Labelled(body, other)
    ensures (exists i :: FirstLabelled(body, id, i)) <==> exists i :: FirstLabelled(body[1..], id, i)
  {
    assert body[0..] == body;
    if i :| FirstLabelled(body, id, i) {
      MovedUp(body, id, i);
    }
    if i :| FirstLabelled(body[1..], id, i) {
      MovedDown(body, id, i);
    }
  }

  lemma MovedUp(body: string, id: string, i: int)
    requires FirstLabelled(body, id, i) && i > 0
    ensures FirstLabelled(body[1..], id, i - 1)
  {
    assert body[1..][i - 1..] == body[i..];
    forall j, other | 0 <= j < i - 1 ensures !Labelled(body[1..][j..], other) {
      assert body[1..][j..] == body[j + 1..];
    }
  }

  lemma MovedDown(body: string, id: string, i: int)
    requires body != "" && FirstLabelled(body[1..], id, i) && forall other :: !Labelled(body, other)
    ensures FirstLabelled(body, id, i + 1)
  {
    assert body[1..][i..] == body[i + 1..];
    forall j, other | 0 <= j < i + 1 ensures !Labelled(body[j..], other) {
      if j == 0 {
        assert body[0..] == body;
      } else {
        assert body[1..][j - 1..] == body[j..];
      }
    }
  }

  // ----- What an accepted adoption is called ----------------------------------------------

  ghost predicate KindTexts(kind: Kind, human: string, hcl: string, short: string) {
    match kind
    case Bucket => human == "Cloud Storage bucket" && hcl == "google_storage_bucket" && short == "bucket"
    case Topic => human == "Pub/Sub topic" && hcl == "google_pubsub_topic" && short == "topic"
    case Subscription => human == "Pub/Sub subscription" && hcl == "google_pubsub_subscription" && short == "subscription"
    case Service => human == "Cloud Run service" && hcl == "google_cloud_run_v2_service" && short == "service"
  }

  ghost predicate IdText(kind: Kind, id: string, name: string, project: string, location: Option<string>) {
    match kind
    case Bucket => id == name
    case Topic => id == "projects/" + project + "/topics/" + name
    case Subscription => id == "projects/" + project + "/subscriptions/" + name
    case Service => location.Some? && id == "projects/" + project + "/locations/" + location.value + "/services/" + name
  }

  /** The body: what and why, then the import id under its label, the address and the file. */
  ghost predicate BodyText(w: Wording, body: string, human: string, name: string, id: string, address: string, path: string) {
    body == w.adopt + human + w.quote + name + w.into
            + w.what + w.brings + human + w.quote + name + w.under
            + w.why + w.because
            + "**Import id:**" + " `" + id + "`" + w.address + address + w.file + path + w.rest
  }

  lemma BodyReads(w: Wording, human: string, name: string, id: string, address: string, path: string)
    ensures BodyText(w, Body(w, human, name, id, address, path), human, name, id, address, path)
  {
    var head, last := BodyHead(w, human, name), BodyTail(w, address, path);
    HeadReads(w, human, name);
    TailReads(head, IMPORT_LABEL, id, w.address, address, w.file, path, w.rest);
  }

  lemma HeadReads(w: Wording, human: string, name: string)
    ensures BodyHead(w, human, name)
         == w.adopt + human + w.quote + name + w.into + w.what + w.brings + human + w.quote + name + w.under
            + w.why + w.because
  {
  }

  lemma TailReads(head: string, tag: string, id: string, a: string, address: string, f: string, path: string, rest: string)
    ensures head + (tag + " `" + id + "`" + (a + address + f + path + rest))
         == head + tag + " `" + id + "`" + a + address + f + path + rest
  {
  }

  /** Path, address, id, title and body of every accepted adoption. */
  lemma RenderingReads(resourceType: string, name: string, project: string, location: Option<string>,
                       topic: Option<string>, image: Option<string>,
                       canonical: string -> Option<Kind>, refused: (Kind, string) -> bool, w: Wording,
                       human: string, hcl: string, short: string)
    requires RenderAdoption(resourceType, name, project, location, topic, image, canonical, refused, w).Ok?
    requires KindTexts(canonical(resourceType).value, human, hcl, short)
    ensures var r := RenderAdoption(resourceType, name, project, location, topic, image, canonical, refused, w).value;
            && r.address == hcl + ".adopt_" + Slug(name)
            && r.path == "iac/adopt_" + short + "_" + Slug(name) + ".tf"
            && IdText(canonical(resourceType).value, r.importId, name, project, location)
            && r.title == "Adopt " + human + " " + name + " into IaC management (zero-change import)"
            && BodyText(w, r.body, human, name, r.importId, r.address, r.path)
  {
    RendersExactly(resourceType, name, project, location, topic, image, canonical, refused, w);
    var kind := canonical(resourceType).value;
    var id := ImportId(kind, name, project, if location.Some? then location.value else "");
    TextsOfKind(kind, human, hcl, short);
    BodyReads(w, human, name, id, hcl + ".adopt_" + Slug(name), "iac/adopt_" + short + "_" + Slug(name) + ".tf");
  }

  lemma TextsOfKind(kind: Kind, human: string, hcl: string, short: string)
    ensures KindTexts(kind, human, hcl, short) <==> human == Human(kind) && hcl == TypeName(kind) && short == ShortName(kind)
  {
  }

  /** A slug keeps lower-case letters and digits, turns upper case into lower, and has an
      underscore for everything else. */
  lemma SlugReads(name: string)
    ensures |Slug(name)| == |name|
    ensures forall i :: 0 <= i < |name| ==>
              && ('a' <= name[i] <= 'z' || '0' <= name[i] <= '9' ==> Slug(name)[i] == name[i])
              && ('A' <= name[i] <= 'Z' ==> 'a' <= Slug(name)[i] <= 'z' && Slug(name)[i] as int - name[i] as int == 32)
              && (!IsAlphanumeric(name[i]) ==> Slug(name)[i] == '_')
  {
  }

  // ----- Why an adoption is refused -------------------------------------------------------

  /** A reason that may be given, and then is true. */
  ghost predicate TrueReason(e: RecipeError, kind: Option<Kind>, name: string, project: string, location: Option<string>,
                             topic: Option<string>, image: Option<string>, refused: (Kind, string) -> bool)
  {
    if kind.None? then e == NotAdoptable
    else match e
      case NotAdoptable => false
      case InvalidProject => !IsProject(project)
      case InvalidName => !IsName(name)
      case ControlPlane => refused(kind.value, name)
      case ForbiddenCharacter =>
        exists s :: Some(s) in {Some(name), location, topic, image} && exists bad :: bad in {"\"", "${", "\n", "\\", " "} && Within(bad, s)
      case NotApplicable =>
        || (kind.value.Bucket? && (Present(topic) || Present(image)))
        || (kind.value.Topic? && (Present(location) || Present(topic) || Present(image)))
        || (kind.value.Subscription? && (Present(location) || Present(image)))
        || (kind.value.Service? && Present(topic))
      case LocationMissing => kind.value in {Bucket, Service} && !Present(location)
      case TopicMissing => kind.value.Subscription? && !Present(topic)
      case ImageMissing => kind.value.Service? && !Present(image)
      case InvalidLocation => kind.value in {Bucket, Service} && location.Some? && !IsLocation(location.value)
      case InvalidImage => kind.value.Service? && image.Some? && !IsImage(image.value)
      case InvalidTopic => kind.value.Subscription? && topic.Some? && !IsName(topic.value)
      case CrossProject =>
        && kind.value.Subscription? && topic.Some?
        && exists other, n :: other != project && topic.value == "projects/" + other + "/topics/" + n
      case ShapeMismatch => false
  }

  ghost predicate Within(bad: string, s: string) {
    exists before, after :: s == before + bad + after
  }

  lemma OneWithin(c: char, s: string)
    ensures c in s <==> Within([c], s)
  {
    if i :| 0 <= i < |s| && s[i] == c {
      assert s == s[..i] + [c] + s[i + 1..];
    }
    if before, after :| s == before + [c] + after {
      assert s[|before|] == c;
    }
  }

  lemma TwoWithin(c: char, d: char, s: string)
    ensures (exists i :: 0 <= i < |s| - 1 && s[i] == c && s[i + 1] == d) <==> Within([c, d], s)
  {
    if i :| 0 <= i < |s| - 1 && s[i] == c && s[i + 1] == d {
      assert s == s[..i] + [c, d] + s[i + 2..];
    }
    if before, after :| s == before + [c, d] + after {
      assert s[|before|] == c && s[|before| + 1] == d;
    }
  }

  /** A parameter is banned if and only if one of five strings occurs in it. */
  lemma BannedExactly(s: string)
    ensures IsBanned(s) <==> exists bad :: bad in {"\"", "${", "\n", "\\", " "} && Within(bad, s)
  {
    OneWithin('"', s);
    OneWithin('\n', s);
    OneWithin('\\', s);
    OneWithin(' ', s);
    TwoWithin('$', '{', s);
    assert "\"" == ['"'] && "\n" == ['\n'] && "\\" == ['\\'] && " " == [' '] && "${" == ['$', '{'];
    var banned := {"\"", "${", "\n", "\\", " "};
    assert "\"" in banned && "${" in banned && "\n" in banned && "\\" in banned && " " in banned;
  }

  /** Every refusal gives a reason that is true of the parameters. */
  lemma RefusalsAreTrue(resourceType: string, name: string, project: string, location: Option<string>,
                        topic: Option<string>, image: Option<string>,
                        canonical: string -> Option<Kind>, refused: (Kind, string) -> bool, w: Wording)
    ensures var r := RenderAdoption(resourceType, name, project, location, topic, image, canonical, refused, w);
            r.Err? ==> TrueReason(r.error, canonical(resourceType), name, project, location, topic, image, refused)
  {
    RendersExactly(resourceType, name, project, location, topic, image, canonical, refused, w);
    BannedExactly(name);
    var given := {Some(name), location, topic, image};
    assert Some(name) in given && location in given && topic in given && image in given;
    if location.Some? {
      BannedExactly(location.value);
    }
    if topic.Some? {
      TopicRefusal(topic.value, project);
    }
    if image.Some? {
      BannedExactly(image.value);
    }
  }

  lemma TopicRefusal(topic: string, project: string)
    ensures var r := NormalizeTopic(topic, project);
            r.Err? ==>
              match r.error
              case ForbiddenCharacter => exists bad :: bad in {"\"", "${", "\n", "\\", " "} && Within(bad, topic)
              case InvalidTopic => !IsName(topic)
              case CrossProject => exists other, n :: other != project && topic == "projects/" + other + "/topics/" + n
              case _ => false
  {
    BannedExactly(topic);
    if HasShape(Topic, topic) {
      JoinedSegments(topic);
      var short := Segments(topic)[3];
      var front := "projects/" + Segments(topic)[1] + "/topics/";
      BannedInside(front, short);
      assert topic == front + short && topic[8] == '/' && !IsNameChar('/');
    }
  }

  lemma BannedInside(front: string, s: string)
    ensures IsBanned(s) ==> IsBanned(front + s)
  {
    var t := front + s;
    assert forall c :: c in s ==> c in t;
    if i :| 0 <= i < |s| - 1 && s[i] == '$' && s[i + 1] == '{' {
      var k := |front| + i;
      assert t[k] == '$' && t[k + 1] == '{';
    }
  }
}
