// Matches between photos and participants: the candidates read from a
// detection, the merging upsert, and the rebuild of an event's OCR evidence
// (backend/app/photographer.py, with the upsert of backend/app/face.py).
module Matches {
  import opened Common

  datatype Source = Ocr | Face | Both

  // A row of photo_participant_matches; its key is the photo and participant.
  datatype Match = Match(source: Source, value: string, confidence: Option<real>)

  datatype Pair = Pair(photo: nat, participant: nat)

  type Table = map<Pair, Match>

  datatype Detection = Detection(text: string, confidence: Option<real>)
  datatype Photo = Photo(id: nat, detections: seq<Detection>)
  datatype Participant = Participant(id: nat, bib: string)

  // One upsert: the row offered for a pair.
  datatype Offer = Offer(pair: Pair, row: Match)

  // The upper-casing of strings.
  type Upper = string -> string

  const PRESERVED: string := "face-preserved-after-ocr-rebuild"

  // ----- candidates -----

  predicate IsTokenChar(c: char) {
    'A' <= c <= 'Z' || '0' <= c <= '9'
  }

  function Filter(s: string): string {
    if s == "" then "" else (if IsTokenChar(s[0]) then [s[0]] else "") + Filter(s[1..])
  }

  function Normalize(upper: Upper, value: string): string {
    Take(Filter(upper(value)), 64)
  }

  // The maximal runs of token characters; `run` is the run being read.
  function Runs(s: string, run: string): seq<string> {
    if s == "" then (if run == "" then [] else [run])
    else if IsTokenChar(s[0]) then Runs(s[1..], run + [s[0]])
    else (if run == "" then [] else [run]) + Runs(s[1..], "")
  }

  function Tokens(upper: Upper, value: string): seq<string> {
    var raw := Normalize(upper, value);
    (if raw != "" then [raw] else []) + Runs(upper(value), "")
  }

  // Normalized tokens, without empty ones and repetitions.
  function Distinct(upper: Upper, tokens: seq<string>): seq<string> {
    if tokens == [] then []
    else
      var before := Distinct(upper, tokens[..|tokens| - 1]);
      var key := Normalize(upper, tokens[|tokens| - 1]);
      if key == "" || key in before then before else before + [key]
  }

  function Candidates(upper: Upper, value: string): seq<string> {
    Distinct(upper, Tokens(upper, value))
  }

  method ExtractMatchCandidates(upper: Upper, value: string) returns (candidates: seq<string>)
    ensures candidates == Candidates(upper, value)
  {
    var tokens := Runs(upper(value), "");
    var raw := Normalize(upper, value);
    if raw != "" {
      tokens := [raw] + tokens;
    } else {
      assert [] + tokens == tokens;
    }
    candidates := [];
    var seen := {};
    for i := 0 to |tokens|
      invariant candidates == Distinct(upper, tokens[..i])
      invariant forall key :: key in seen <==> key in candidates
    {
      assert tokens[..i + 1][..i] == tokens[..i];
      var normalized := Normalize(upper, tokens[i]);
      if normalized == "" || normalized in seen {
        continue;
      }
      seen := seen + {normalized};
      candidates := candidates + [normalized];
    }
    assert tokens[..|tokens|] == tokens;
  }

  // Some token has this key.
  ghost predicate IsKeyOf(upper: Upper, tokens: seq<string>, key: string) {
    key != "" && exists token | token in tokens :: Normalize(upper, token) == key
  }

  lemma KeyOfMore(upper: Upper, tokens: seq<string>, token: string, key: string)
    ensures IsKeyOf(upper, tokens + [token], key)
       <==> IsKeyOf(upper, tokens, key) || (key != "" && Normalize(upper, token) == key)
  {
    var more := tokens + [token];
    if IsKeyOf(upper, tokens, key) {
      var x :| x in tokens && Normalize(upper, x) == key;
      assert x in more;
    }
    assert token in more;
  }

  // A string is a candidate exactly when it is the key of some token.
  lemma {:induction false} DistinctHolds(upper: Upper, tokens: seq<string>, key: string)
    ensures key in Distinct(upper, tokens) <==> IsKeyOf(upper, tokens, key)
  {
    if tokens != [] {
      var init, token := tokens[..|tokens| - 1], tokens[|tokens| - 1];
      DistinctHolds(upper, init, key);
      KeyOfMore(upper, init, token, key);
      assert tokens == init + [token];
    }
  }

  // No candidate is repeated.
  lemma {:induction false} DistinctRepeatsNone(upper: Upper, tokens: seq<string>, i: nat, j: nat)
    requires i < j < |Distinct(upper, tokens)|
    ensures Distinct(upper, tokens)[i] != Distinct(upper, tokens)[j]
  {
    var before := Distinct(upper, tokens[..|tokens| - 1]);
    if j < |before| {
      DistinctRepeatsNone(upper, tokens[..|tokens| - 1], i, j);
    } else {
      assert before[i] in before;
    }
  }

  // ----- the upsert -----

  function ClampValue(value: string): string {
    if value == "" then "matched" else Take(value, 255)
  }

  function SourceName(s: Source): string {
    match s
    case Ocr => "ocr"
    case Face => "face"
    case Both => "ocr+face"
  }

  function MergeSource(old': Source, excluded: Source): Source {
    if old' == excluded then old' else if old' == Both then old' else Both
  }

  function MergeConfidence(old': Option<real>, excluded: Option<real>): Option<real> {
    if old' == None then excluded
    else if excluded == None then old'
    else if old'.value >= excluded.value then old'
    else excluded
  }

  function MergeValue(old': Match, excluded: Match): string {
    if old'.source == excluded.source then excluded.value
    else Take(old'.value + " | " + SourceName(excluded.source) + ":" + excluded.value, 255)
  }

  function Upsert(table: Table, offer: Offer): Table {
    var excluded := offer.row.(value := ClampValue(offer.row.value));
    table[offer.pair :=
      if offer.pair in table then
        var was := table[offer.pair];
        Match(MergeSource(was.source, excluded.source), MergeValue(was, excluded),
              MergeConfidence(was.confidence, excluded.confidence))
      else excluded]
  }

  function Upserts(table: Table, offers: seq<Offer>): Table {
    if offers == [] then table else Upsert(Upserts(table, offers[..|offers| - 1]), offers[|offers| - 1])
  }

  // ----- evidence -----

  // Source and confidence of a row: what upserts join.
  datatype Core = Core(source: Source, confidence: Option<real>)

  function CoreOf(m: Match): Core {
    Core(m.source, m.confidence)
  }

  function CoreAt(table: Table, p: Pair): Option<Core> {
    if p in table then Some(CoreOf(table[p])) else None
  }

  predicate NoMore(a: Option<real>, b: Option<real>) {
    a == None || (b.Some? && a.value <= b.value)
  }

  // At most as much evidence, at most as confident; no row is least.
  predicate Below(a: Option<Core>, b: Option<Core>) {
    a == None
    || (b.Some?
        && (a.value.source == b.value.source || b.value.source == Both)
        && NoMore(a.value.confidence, b.value.confidence))
  }

  ghost predicate HasOcr(table: Table, p: Pair) {
    p in table && table[p].source != Face
  }

  ghost predicate HasFace(table: Table, p: Pair) {
    p in table && table[p].source != Ocr
  }

  function RowAt(table: Table, p: Pair): Option<Match> {
    if p in table then Some(table[p]) else None
  }

  // `join` is the least core above both.
  ghost predicate IsLeast(a: Option<Core>, b: Option<Core>, join: Option<Core>) {
    && Below(a, join) && Below(b, join)
    && forall c :: Below(a, c) && Below(b, c) ==> Below(join, c)
  }

  // ----- the rebuild -----

  // The participant of a bib key: of several with the same key, the last.
  function Owner(upper: Upper, participants: seq<Participant>, key: string): Option<nat> {
    if participants == [] then None
    else
      var last := participants[|participants| - 1];
      if key != "" && Normalize(upper, last.bib) == key then Some(last.id)
      else Owner(upper, participants[..|participants| - 1], key)
  }

  // The offers of the first n candidates of one detection.
  function KeyOffers(upper: Upper, participants: seq<Participant>, photo: nat, keys: seq<string>,
                     confidence: Option<real>): seq<Offer>
  {
    if keys == [] then []
    else
      var before := KeyOffers(upper, participants, photo, keys[..|keys| - 1], confidence);
      var key := keys[|keys| - 1];
      match Owner(upper, participants, key)
      case None => before
      case Some(id) => before + [Offer(Pair(photo, id), Match(Ocr, key, confidence))]
  }

  function PhotoOffers(upper: Upper, participants: seq<Participant>, photo: nat, detections: seq<Detection>)
    : seq<Offer>
  {
    if detections == [] then []
    else
      var d := detections[|detections| - 1];
      PhotoOffers(upper, participants, photo, detections[..|detections| - 1])
      + KeyOffers(upper, participants, photo, Candidates(upper, d.text), d.confidence)
  }

  function EventOffers(upper: Upper, participants: seq<Participant>, photos: seq<Photo>): seq<Offer> {
    if photos == [] then []
    else
      var p := photos[|photos| - 1];
      EventOffers(upper, participants, photos[..|photos| - 1]) + PhotoOffers(upper, participants, p.id, p.detections)
  }

  function WithoutOcr(row: Match): Match {
    if row.source == Both then Match(Face, PRESERVED, row.confidence) else row
  }

  function Stripped(table: Table): Table {
    map p | p in table && table[p].source != Ocr :: WithoutOcr(table[p])
  }

  function Rebuilt(upper: Upper, participants: seq<Participant>, table: Table, photos: seq<Photo>): Table {
    Upserts(Stripped(table), EventOffers(upper, participants, photos))
  }

  lemma {:induction false} UpsertsJoin(table: Table, offers: seq<Offer>, more: seq<Offer>)
    ensures Upserts(table, offers + more) == Upserts(Upserts(table, offers), more)
  {
    if more == [] {
      assert offers + more == offers;
    } else {
      assert (offers + more)[..|offers + more| - 1] == offers + more[..|more| - 1];
      UpsertsJoin(table, offers, more[..|more| - 1]);
    }
  }

  lemma KeyOffersNext(table: Table, upper: Upper, participants: seq<Participant>, photo: nat, keys: seq<string>, i: nat,
                      confidence: Option<real>)
    requires i < |keys|
    ensures var before := Upserts(table, KeyOffers(upper, participants, photo, keys[..i], confidence));
      Upserts(table, KeyOffers(upper, participants, photo, keys[..i + 1], confidence))
      == match Owner(upper, participants, keys[i])
         case None => before
         case Some(id) => Upsert(before, Offer(Pair(photo, id), Match(Ocr, keys[i], confidence)))
  {
    assert keys[..i + 1][..i] == keys[..i];
    var before := KeyOffers(upper, participants, photo, keys[..i], confidence);
    if Owner(upper, participants, keys[i]).Some? {
      var offer := Offer(Pair(photo, Owner(upper, participants, keys[i]).value), Match(Ocr, keys[i], confidence));
      assert (before + [offer])[..|before|] == before;
    }
  }

  lemma PhotoOffersNext(table: Table, upper: Upper, participants: seq<Participant>, photo: nat,
                        detections: seq<Detection>, i: nat)
    requires i < |detections|
    ensures var d := detections[i];
      Upserts(table, PhotoOffers(upper, participants, photo, detections[..i + 1]))
      == Upserts(Upserts(table, PhotoOffers(upper, participants, photo, detections[..i])),
                 KeyOffers(upper, participants, photo, Candidates(upper, d.text), d.confidence))
  {
    assert detections[..i + 1][..i] == detections[..i];
    UpsertsJoin(table, PhotoOffers(upper, participants, photo, detections[..i]),
                KeyOffers(upper, participants, photo, Candidates(upper, detections[i].text), detections[i].confidence));
  }

  // The dictionary of bib keys finds the owner of every key.
  ghost predicate IsIndex(upper: Upper, participants: seq<Participant>, byBib: map<string, nat>) {
    forall key :: Owner(upper, participants, key) == if key in byBib then Some(byBib[key]) else None
  }

  // The matches of one event.
  class MatchTable {
    var rows: Table

    constructor ()
      ensures rows == map[]
    {
      rows := map[];
    }

    // The row of the pair becomes the least one above what was there and what
    // is offered; every other row stays.
    method UpsertFinalMatch(offer: Offer)
      modifies this
      ensures rows == Upsert(old(rows), offer)
      ensures forall p | p != offer.pair :: RowAt(rows, p) == RowAt(old(rows), p)
      ensures IsLeast(CoreAt(old(rows), offer.pair), Some(CoreOf(offer.row)), CoreAt(rows, offer.pair))
    {
      var excluded := offer.row.(value := ClampValue(offer.row.value));
      if offer.pair in rows {
        var was := rows[offer.pair];
        rows := rows[offer.pair := Match(MergeSource(was.source, excluded.source), MergeValue(was, excluded),
                                         MergeConfidence(was.confidence, excluded.confidence))];
      } else {
        rows := rows[offer.pair := excluded];
      }
    }

    method ParticipantsByBib(upper: Upper, participants: seq<Participant>) returns (byBib: map<string, nat>)
      ensures IsIndex(upper, participants, byBib)
    {
      byBib := map[];
      for i := 0 to |participants|
        invariant IsIndex(upper, participants[..i], byBib)
      {
        assert participants[..i + 1][..i] == participants[..i];
        var key := Normalize(upper, participants[i].bib);
        if key != "" {
          byBib := byBib[key := participants[i].id];
        }
      }
      assert participants[..|participants|] == participants;
    }

    method MatchKey(upper: Upper, participants: seq<Participant>, byBib: map<string, nat>, photo: nat, key: string,
                    confidence: Option<real>)
      requires IsIndex(upper, participants, byBib)
      modifies this
      ensures rows == match Owner(upper, participants, key)
                      case None => old(rows)
                      case Some(id) => Upsert(old(rows), Offer(Pair(photo, id), Match(Ocr, key, confidence)))
    {
      if key in byBib {
        UpsertFinalMatch(Offer(Pair(photo, byBib[key]), Match(Ocr, key, confidence)));
      }
    }

    method MatchDetection(upper: Upper, participants: seq<Participant>, byBib: map<string, nat>, photo: nat,
                          d: Detection)
      requires IsIndex(upper, participants, byBib)
      modifies this
      ensures rows == Upserts(old(rows), KeyOffers(upper, participants, photo, Candidates(upper, d.text), d.confidence))
    {
      var keys := ExtractMatchCandidates(upper, d.text);
      ghost var before := rows;
      for i := 0 to |keys|
        invariant rows == Upserts(before, KeyOffers(upper, participants, photo, keys[..i], d.confidence))
      {
        KeyOffersNext(before, upper, participants, photo, keys, i, d.confidence);
        MatchKey(upper, participants, byBib, photo, keys[i], d.confidence);
      }
      assert keys[..|keys|] == keys;
    }

    method CreateParticipantMatches(upper: Upper, participants: seq<Participant>, photo: Photo)
      modifies this
      ensures rows == Upserts(old(rows), PhotoOffers(upper, participants, photo.id, photo.detections))
    {
      var byBib := ParticipantsByBib(upper, participants);
      ghost var before := rows;
      for i := 0 to |photo.detections|
        invariant rows == Upserts(before, PhotoOffers(upper, participants, photo.id, photo.detections[..i]))
      {
        PhotoOffersNext(before, upper, participants, photo.id, photo.detections, i);
        MatchDetection(upper, participants, byBib, photo.id, photo.detections[i]);
      }
      assert photo.detections[..|photo.detections|] == photo.detections;
    }

    // No OCR evidence is left, all face evidence is, with its confidence.
    method StripOcr()
      modifies this
      ensures rows == Stripped(old(rows))
      ensures forall p :: !HasOcr(rows, p) && (HasFace(rows, p) <==> HasFace(old(rows), p))
      ensures forall p | p in rows :: p in old(rows) && rows[p].confidence == old(rows)[p].confidence
      ensures forall p | p in old(rows) && old(rows)[p].source == Face :: RowAt(rows, p) == RowAt(old(rows), p)
    {
      rows := map p | p in rows && rows[p].source != Ocr :: WithoutOcr(rows[p]);
    }

    method RebuildEventPhotoMatches(upper: Upper, participants: seq<Participant>, photos: seq<Photo>)
      returns (rebuilt: nat)
      modifies this
      ensures rows == Rebuilt(upper, participants, old(rows), photos)
      ensures rebuilt == |set i | 0 <= i < |photos| && photos[i].detections != []|
    {
      StripOcr();
      rebuilt := 0;
      for i := 0 to |photos|
        invariant rows == Upserts(Stripped(old(rows)), EventOffers(upper, participants, photos[..i]))
        invariant rebuilt == |set j | 0 <= j < i && photos[j].detections != []|
      {
        assert photos[..i + 1][..i] == photos[..i];
        ghost var done := set j | 0 <= j < i && photos[j].detections != [];
        ghost var offers := EventOffers(upper, participants, photos[..i]);
        UpsertsJoin(Stripped(old(rows)), offers, PhotoOffers(upper, participants, photos[i].id, photos[i].detections));
        if photos[i].detections == [] {
          assert (set j | 0 <= j < i + 1 && photos[j].detections != []) == done;
          continue;
        }
        assert (set j | 0 <= j < i + 1 && photos[j].detections != []) == done + {i};
        CreateParticipantMatches(upper, participants, photos[i]);
        rebuilt := rebuilt + 1;
      }
      assert photos[..|photos|] == photos;
    }
  }
}

// What upserts and rebuilds mean.
module MatchLaws {
  import opened Common
  import opened Matches

  lemma BelowIsOrder(a: Option<Core>, b: Option<Core>, c: Option<Core>)
    ensures Below(a, a)
    ensures Below(a, b) && Below(b, a) ==> a == b
    ensures Below(a, b) && Below(b, c) ==> Below(a, c)
  {
  }

  // The least core above a core and every offer made for the pair.
  ghost predicate IsJoin(start: Option<Core>, offers: seq<Offer>, p: Pair, result: Option<Core>) {
    && IsAbove(start, offers, p, result)
    && forall c :: IsAbove(start, offers, p, c) ==> Below(result, c)
  }

  ghost predicate IsAbove(start: Option<Core>, offers: seq<Offer>, p: Pair, c: Option<Core>) {
    Below(start, c) && forall o | o in offers && o.pair == p :: Below(Some(CoreOf(o.row)), c)
  }

  lemma UpsertJoins(table: Table, o: Offer, c: Option<Core>)
    ensures var after := CoreAt(Upsert(table, o), o.pair);
      && Below(CoreAt(table, o.pair), after) && Below(Some(CoreOf(o.row)), after)
      && (Below(CoreAt(table, o.pair), c) && Below(Some(CoreOf(o.row)), c) ==> Below(after, c))
  {
  }

  // An upsert is a join: after any offers a row is the least one above what
  // was there and all that was offered.
  lemma {:induction false} UpsertsAreJoin(table: Table, offers: seq<Offer>, p: Pair)
    ensures IsJoin(CoreAt(table, p), offers, p, CoreAt(Upserts(table, offers), p))
  {
    if offers != [] {
      var init, o := offers[..|offers| - 1], offers[|offers| - 1];
      UpsertsAreJoin(table, init, p);
      assert offers == init + [o];
      var start, mid, end := CoreAt(table, p), CoreAt(Upserts(table, init), p), CoreAt(Upserts(table, offers), p);
      if o.pair == p {
        JoinOneMore(start, init, o, p, mid, end, Upserts(table, init));
      } else {
        assert end == mid;
        SameJoin(start, init, offers, p, mid);
      }
    }
  }

  lemma SameJoin(start: Option<Core>, offers: seq<Offer>, others: seq<Offer>, p: Pair, result: Option<Core>)
    requires IsJoin(start, offers, p, result)
    requires forall o: Offer | o.pair == p :: o in offers <==> o in others
    ensures IsJoin(start, others, p, result)
  {
    forall c ensures IsAbove(start, offers, p, c) <==> IsAbove(start, others, p, c) {
    }
  }

  lemma JoinOneMore(start: Option<Core>, init: seq<Offer>, o: Offer, p: Pair, mid: Option<Core>, end: Option<Core>,
                    table: Table)
    requires IsJoin(start, init, p, mid) && o.pair == p
    requires mid == CoreAt(table, p) && end == CoreAt(Upsert(table, o), p)
    ensures IsJoin(start, init + [o], p, end)
  {
    UpsertJoins(table, o, None);
    var all := init + [o];
    BelowIsOrder(start, mid, end);
    forall x | x in all && x.pair == p ensures Below(Some(CoreOf(x.row)), end) {
      if x in init {
        BelowIsOrder(Some(CoreOf(x.row)), mid, end);
      }
    }
    forall c | IsAbove(start, all, p, c) ensures Below(end, c) {
      assert forall x | x in init :: x in all;
      assert o in all;
      assert IsAbove(start, init, p, c);
      UpsertJoins(table, o, c);
    }
  }

  lemma JoinIsUnique(start: Option<Core>, offers: seq<Offer>, p: Pair, c: Option<Core>, d: Option<Core>)
    requires IsJoin(start, offers, p, c) && IsJoin(start, offers, p, d)
    ensures c == d
  {
    BelowIsOrder(c, d, c);
  }

  // Offers made in any order, and any number of times, leave the same sources
  // and confidences.
  lemma OfferOrderIsIrrelevant(table: Table, offers: seq<Offer>, others: seq<Offer>, p: Pair)
    requires forall o :: o in offers <==> o in others
    ensures CoreAt(Upserts(table, offers), p) == CoreAt(Upserts(table, others), p)
  {
    UpsertsAreJoin(table, offers, p);
    UpsertsAreJoin(table, others, p);
    SameJoin(CoreAt(table, p), offers, others, p, CoreAt(Upserts(table, offers), p));
    JoinIsUnique(CoreAt(table, p), others, p, CoreAt(Upserts(table, offers), p), CoreAt(Upserts(table, others), p));
  }

  // ----- the rebuild -----

  ghost predicate Owns(upper: Upper, participants: seq<Participant>, keys: seq<string>, participant: nat) {
    exists key | key in keys :: Owner(upper, participants, key) == Some(participant)
  }

  ghost predicate Yields(upper: Upper, participants: seq<Participant>, d: Detection, participant: nat) {
    Owns(upper, participants, Candidates(upper, d.text), participant)
  }

  ghost predicate AnyYields(upper: Upper, participants: seq<Participant>, detections: seq<Detection>, participant: nat)
  {
    exists d | d in detections :: Yields(upper, participants, d, participant)
  }

  // Some detection of the photo yields a bib key of the participant.
  ghost predicate Detected(upper: Upper, participants: seq<Participant>, photos: seq<Photo>, p: Pair) {
    exists photo | photo in photos ::
      photo.id == p.photo && AnyYields(upper, participants, photo.detections, p.participant)
  }

  ghost predicate Offered(offers: seq<Offer>, p: Pair) {
    exists o | o in offers :: o.pair == p
  }

  ghost predicate OnlyOcr(offers: seq<Offer>) {
    forall o | o in offers :: o.row.source == Ocr
  }

  lemma OfferedJoins(a: seq<Offer>, b: seq<Offer>, p: Pair)
    ensures Offered(a + b, p) <==> Offered(a, p) || Offered(b, p)
  {
    if Offered(a, p) {
      var o :| o in a && o.pair == p;
      assert o in a + b;
    }
    if Offered(b, p) {
      var o :| o in b && o.pair == p;
      assert o in a + b;
    }
  }

  lemma OnlyOcrJoins(a: seq<Offer>, b: seq<Offer>)
    requires OnlyOcr(a) && OnlyOcr(b)
    ensures OnlyOcr(a + b)
  {
  }

  lemma OffersJoin(a: seq<Offer>, b: seq<Offer>, p: Pair, x: bool, y: bool)
    requires OnlyOcr(a) && (Offered(a, p) <==> x)
    requires OnlyOcr(b) && (Offered(b, p) <==> y)
    ensures OnlyOcr(a + b) && (Offered(a + b, p) <==> x || y)
  {
    OfferedJoins(a, b, p);
    OnlyOcrJoins(a, b);
  }

  lemma OfferedOne(o: Offer, p: Pair)
    ensures Offered([o], p) <==> o.pair == p
  {
    assert o in [o];
  }

  lemma OwnsJoins(upper: Upper, participants: seq<Participant>, keys: seq<string>, key: string, participant: nat)
    ensures Owns(upper, participants, keys + [key], participant)
       <==> Owns(upper, participants, keys, participant) || Owner(upper, participants, key) == Some(participant)
  {
    if Owns(upper, participants, keys, participant) {
      var k :| k in keys && Owner(upper, participants, k) == Some(participant);
      assert k in keys + [key];
    }
    assert key in keys + [key];
  }

  lemma AnyYieldsJoins(upper: Upper, participants: seq<Participant>, ds: seq<Detection>, d: Detection, participant: nat)
    ensures AnyYields(upper, participants, ds + [d], participant)
       <==> AnyYields(upper, participants, ds, participant) || Yields(upper, participants, d, participant)
  {
    if AnyYields(upper, participants, ds, participant) {
      var x :| x in ds && Yields(upper, participants, x, participant);
      assert x in ds + [d];
    }
    assert d in ds + [d];
  }

  lemma {:induction false} KeyOffersAre(upper: Upper, participants: seq<Participant>, photo: nat, keys: seq<string>,
                                        confidence: Option<real>, p: Pair)
    ensures var offers := KeyOffers(upper, participants, photo, keys, confidence);
      && OnlyOcr(offers)
      && (Offered(offers, p) <==> p.photo == photo && Owns(upper, participants, keys, p.participant))
  {
    if keys != [] {
      var init, key := keys[..|keys| - 1], keys[|keys| - 1];
      KeyOffersAre(upper, participants, photo, init, confidence, p);
      assert keys == init + [key];
      OwnsJoins(upper, participants, init, key, p.participant);
      var owner := Owner(upper, participants, key);
      if owner.Some? {
        var o := Offer(Pair(photo, owner.value), Match(Ocr, key, confidence));
        OfferedJoins(KeyOffers(upper, participants, photo, init, confidence), [o], p);
        OfferedOne(o, p);
      }
    }
  }

  // The offers are by OCR, and there is one for the pair exactly when `expected`.
  ghost predicate OffersFor(offers: seq<Offer>, p: Pair, expected: bool) {
    OnlyOcr(offers) && (Offered(offers, p) <==> expected)
  }

  lemma PhotoOffersStep(upper: Upper, participants: seq<Participant>, photo: nat, init: seq<Detection>, d: Detection,
                        offers: seq<Offer>, p: Pair)
    requires OffersFor(offers, p, p.photo == photo && AnyYields(upper, participants, init, p.participant))
    ensures OffersFor(offers + KeyOffers(upper, participants, photo, Candidates(upper, d.text), d.confidence), p,
                      p.photo == photo && AnyYields(upper, participants, init + [d], p.participant))
  {
    KeyOffersAre(upper, participants, photo, Candidates(upper, d.text), d.confidence, p);
    AnyYieldsJoins(upper, participants, init, d, p.participant);
    OffersJoin(offers, KeyOffers(upper, participants, photo, Candidates(upper, d.text), d.confidence), p,
               p.photo == photo && AnyYields(upper, participants, init, p.participant),
               p.photo == photo && Yields(upper, participants, d, p.participant));
  }

  lemma {:induction false} PhotoOffersAre(upper: Upper, participants: seq<Participant>, photo: nat,
                                          detections: seq<Detection>, p: Pair)
    ensures OffersFor(PhotoOffers(upper, participants, photo, detections), p,
                      p.photo == photo && AnyYields(upper, participants, detections, p.participant))
  {
    if detections != [] {
      var init, d := detections[..|detections| - 1], detections[|detections| - 1];
      PhotoOffersAre(upper, participants, photo, init, p);
      PhotoOffersStep(upper, participants, photo, init, d, PhotoOffers(upper, participants, photo, init), p);
      assert detections == init + [d];
    }
  }

  lemma DetectedJoins(upper: Upper, participants: seq<Participant>, photos: seq<Photo>, photo: Photo, p: Pair)
    ensures Detected(upper, participants, photos + [photo], p)
       <==> Detected(upper, participants, photos, p)
            || (photo.id == p.photo && AnyYields(upper, participants, photo.detections, p.participant))
  {
    if Detected(upper, participants, photos, p) {
      var x :| x in photos && x.id == p.photo && AnyYields(upper, participants, x.detections, p.participant);
      assert x in photos + [photo];
    }
    assert photo in photos + [photo];
  }

  lemma {:induction false} EventOffersAre(upper: Upper, participants: seq<Participant>, photos: seq<Photo>, p: Pair)
    ensures var offers := EventOffers(upper, participants, photos);
      OnlyOcr(offers) && (Offered(offers, p) <==> Detected(upper, participants, photos, p))
  {
    if photos != [] {
      var init, photo := photos[..|photos| - 1], photos[|photos| - 1];
      EventOffersAre(upper, participants, init, p);
      PhotoOffersAre(upper, participants, photo.id, photo.detections, p);
      assert photos == init + [photo];
      DetectedJoins(upper, participants, init, photo, p);
      var before := EventOffers(upper, participants, init);
      var last := PhotoOffers(upper, participants, photo.id, photo.detections);
      OffersJoin(before, last, p, Detected(upper, participants, init, p),
                 p.photo == photo.id && AnyYields(upper, participants, photo.detections, p.participant));
    }
  }

  lemma {:induction false} OcrOffersAdd(table: Table, offers: seq<Offer>, p: Pair)
    requires OnlyOcr(offers)
    ensures HasOcr(Upserts(table, offers), p) <==> HasOcr(table, p) || Offered(offers, p)
    ensures HasFace(Upserts(table, offers), p) <==> HasFace(table, p)
  {
    if offers != [] {
      var init, o := offers[..|offers| - 1], offers[|offers| - 1];
      assert offers == init + [o];
      OcrOffersAdd(table, init, p);
      OfferedJoins(init, [o], p);
      OfferedOne(o, p);
      assert o in offers;
    }
  }

  // After a rebuild a pair has OCR evidence exactly when some detection of the
  // photo yields the participant's key, and face evidence exactly as before.
  lemma RebuildIsExact(upper: Upper, participants: seq<Participant>, table: Table, photos: seq<Photo>, p: Pair)
    ensures var rebuilt := Rebuilt(upper, participants, table, photos);
      && (HasOcr(rebuilt, p) <==> Detected(upper, participants, photos, p))
      && (HasFace(rebuilt, p) <==> HasFace(table, p))
  {
    EventOffersAre(upper, participants, photos, p);
    OcrOffersAdd(Stripped(table), EventOffers(upper, participants, photos), p);
  }

  // Face evidence never loses confidence in a rebuild.
  lemma RebuildKeepsFaceConfidence(upper: Upper, participants: seq<Participant>, table: Table, photos: seq<Photo>,
                                   p: Pair)
    requires HasFace(table, p)
    ensures var rebuilt := Rebuilt(upper, participants, table, photos);
      p in rebuilt && NoMore(table[p].confidence, rebuilt[p].confidence)
  {
    UpsertsAreJoin(Stripped(table), EventOffers(upper, participants, photos), p);
  }

  // Joining the same offers once more changes nothing, from the old start or
  // from a start between it and the result.
  lemma JoinAgain(start: Option<Core>, again: Option<Core>, offers: seq<Offer>, p: Pair, result: Option<Core>)
    requires IsJoin(start, offers, p, result) && Below(start, again) && Below(again, result)
    ensures IsJoin(again, offers, p, result)
  {
    forall c | IsAbove(again, offers, p, c) ensures Below(result, c) {
      BelowIsOrder(start, again, c);
      assert IsAbove(start, offers, p, c);
    }
  }

  lemma StrippedBetween(upper: Upper, participants: seq<Participant>, table: Table, photos: seq<Photo>, p: Pair)
    ensures var once := Rebuilt(upper, participants, table, photos);
      && Below(CoreAt(Stripped(table), p), CoreAt(Stripped(once), p))
      && Below(CoreAt(Stripped(once), p), CoreAt(once, p))
  {
    RebuildIsExact(upper, participants, table, photos, p);
    UpsertsAreJoin(Stripped(table), EventOffers(upper, participants, photos), p);
  }

  // Rebuilding twice changes neither source nor confidence.
  lemma RebuildTwice(upper: Upper, participants: seq<Participant>, table: Table, photos: seq<Photo>, p: Pair)
    ensures var once := Rebuilt(upper, participants, table, photos);
      CoreAt(Rebuilt(upper, participants, once, photos), p) == CoreAt(once, p)
  {
    var once, offers := Rebuilt(upper, participants, table, photos), EventOffers(upper, participants, photos);
    UpsertsAreJoin(Stripped(table), offers, p);
    UpsertsAreJoin(Stripped(once), offers, p);
    StrippedBetween(upper, participants, table, photos, p);
    JoinAgain(CoreAt(Stripped(table), p), CoreAt(Stripped(once), p), offers, p, CoreAt(once, p));
    JoinIsUnique(CoreAt(Stripped(once), p), offers, p, CoreAt(once, p),
                 CoreAt(Rebuilt(upper, participants, once, photos), p));
  }
}
