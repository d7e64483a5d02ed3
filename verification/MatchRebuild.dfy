// The rebuild of an event's matches against computing them from scratch
// (backend/app/photographer.py, with the upsert of backend/app/face.py).
module MatchRebuild {
  import opened Common
  import opened Matches
  import opened MatchLaws

  // The offers made by face recognition.
  function FaceOffers(offers: seq<Offer>): seq<Offer> {
    if offers == [] then []
    else
      var before, o := FaceOffers(offers[..|offers| - 1]), offers[|offers| - 1];
      if o.row.source == Face then before + [o] else before
  }

  // Every offer is by OCR or by face recognition, as all callers make them.
  ghost predicate Single(offers: seq<Offer>) {
    forall o | o in offers :: o.row.source != Both
  }

  ghost predicate OnlyFace(offers: seq<Offer>) {
    forall o | o in offers :: o.row.source == Face
  }

  // The evidence that stands: all face offers, and what the detections yield now.
  function Standing(upper: Upper, participants: seq<Participant>, faces: seq<Offer>, photos: seq<Photo>): seq<Offer> {
    faces + EventOffers(upper, participants, photos)
  }

  // The table has face evidence for the pair exactly when it was offered, and
  // is at least as confident as all of it.
  ghost predicate Covers(table: Table, faces: seq<Offer>, p: Pair) {
    && (HasFace(table, p) <==> Offered(faces, p))
    && forall o | o in faces && o.pair == p :: Below(Some(CoreOf(o.row)), CoreAt(table, p))
  }

  // Some of these offers for the pair is at least that confident.
  ghost predicate Backed(confidence: Option<real>, p: Pair, standing: seq<Offer>) {
    exists f | f in standing :: f.pair == p && NoMore(confidence, f.row.confidence)
  }

  lemma {:induction false} FaceOffersAre(offers: seq<Offer>, o: Offer)
    ensures o in FaceOffers(offers) <==> o in offers && o.row.source == Face
  {
    if offers != [] {
      FaceOffersAre(offers[..|offers| - 1], o);
      assert offers == offers[..|offers| - 1] + [offers[|offers| - 1]];
    }
  }

  // A row has face evidence exactly when some face offer was made for it.
  lemma FaceEvidenceIsOffered(offers: seq<Offer>, p: Pair)
    requires Single(offers)
    ensures HasFace(Upserts(map[], offers), p) <==> Offered(FaceOffers(offers), p)
  {
    var t := Upserts(map[], offers);
    UpsertsAreJoin(map[], offers, p);
    if Offered(FaceOffers(offers), p) {
      var o :| o in FaceOffers(offers) && o.pair == p;
      FaceOffersAre(offers, o);
      assert Below(Some(CoreOf(o.row)), CoreAt(t, p));
    } else if p in t {
      var c := Some(Core(Ocr, t[p].confidence));
      forall o | o in offers && o.pair == p ensures Below(Some(CoreOf(o.row)), c) {
        FaceOffersAre(offers, o);
        assert Below(Some(CoreOf(o.row)), CoreAt(t, p));
      }
      assert IsAbove(None, offers, p, c);
    }
  }

  // The confidence of a row is that of some offer made for it.
  lemma {:induction false} ConfidenceIsOffered(offers: seq<Offer>, p: Pair) returns (o: Offer)
    requires p in Upserts(map[], offers)
    ensures o in offers && o.pair == p && o.row.confidence == Upserts(map[], offers)[p].confidence
  {
    var init, last := offers[..|offers| - 1], offers[|offers| - 1];
    assert offers == init + [last];
    if p in Upserts(map[], init) {
      o := ConfidenceIsOffered(init, p);
      if last.pair == p && Upserts(map[], offers)[p].confidence == last.row.confidence {
        o := last;
      }
    } else {
      o := last;
    }
  }

  // Being backed is being at most as confident as the row made from what stands.
  lemma BackedIsNoMore(confidence: Option<real>, p: Pair, standing: seq<Offer>)
    requires Offered(standing, p)
    ensures var anew := Upserts(map[], standing);
      p in anew && (Backed(confidence, p, standing) <==> NoMore(confidence, anew[p].confidence))
  {
    var anew := Upserts(map[], standing);
    UpsertsAreJoin(map[], standing, p);
    var x :| x in standing && x.pair == p;
    assert Below(Some(CoreOf(x.row)), CoreAt(anew, p));
    if Backed(confidence, p, standing) {
      var f :| f in standing && f.pair == p && NoMore(confidence, f.row.confidence);
      assert Below(Some(CoreOf(f.row)), CoreAt(anew, p));
    }
    var f := ConfidenceIsOffered(standing, p);
    assert NoMore(confidence, anew[p].confidence) ==> Backed(confidence, p, standing);
  }

  // ----- one rebuild -----

  // Without face evidence a rebuild starts the row anew.
  lemma WithoutFaceIsAnew(upper: Upper, participants: seq<Participant>, t: Table, faces: seq<Offer>, photos: seq<Photo>,
                          p: Pair)
    requires Covers(t, faces, p) && !HasFace(t, p)
    ensures CoreAt(Rebuilt(upper, participants, t, photos), p)
         == CoreAt(Upserts(map[], Standing(upper, participants, faces, photos)), p)
  {
    var events, standing := EventOffers(upper, participants, photos), Standing(upper, participants, faces, photos);
    UpsertsAreJoin(Stripped(t), events, p);
    UpsertsAreJoin(map[], standing, p);
    forall o: Offer | o.pair == p ensures o in events <==> o in standing {
      assert o !in faces;
    }
    SameJoin(None, events, standing, p, CoreAt(Rebuilt(upper, participants, t, photos), p));
    JoinIsUnique(None, standing, p, CoreAt(Rebuilt(upper, participants, t, photos), p),
                 CoreAt(Upserts(map[], standing), p));
  }

  // With face evidence the rebuilt row is never less than the one made anew.
  lemma AnewIsBelow(upper: Upper, participants: seq<Participant>, t: Table, faces: seq<Offer>, photos: seq<Photo>,
                    p: Pair)
    requires OnlyFace(faces) && Covers(t, faces, p) && HasFace(t, p)
    ensures Below(CoreAt(Upserts(map[], Standing(upper, participants, faces, photos)), p),
                  CoreAt(Rebuilt(upper, participants, t, photos), p))
  {
    var events, standing := EventOffers(upper, participants, photos), Standing(upper, participants, faces, photos);
    var rebuilt := CoreAt(Rebuilt(upper, participants, t, photos), p);
    UpsertsAreJoin(Stripped(t), events, p);
    UpsertsAreJoin(map[], standing, p);
    forall o | o in standing && o.pair == p ensures Below(Some(CoreOf(o.row)), rebuilt) {
      if o !in events {
        assert Below(Some(CoreOf(o.row)), CoreAt(t, p));
        assert Below(Some(CoreOf(o.row)), CoreAt(Stripped(t), p));
        BelowIsOrder(Some(CoreOf(o.row)), CoreAt(Stripped(t), p), rebuilt);
      }
    }
    assert IsAbove(None, standing, p, rebuilt);
  }

  lemma FaceIsStanding(upper: Upper, participants: seq<Participant>, t: Table, faces: seq<Offer>, photos: seq<Photo>,
                       p: Pair)
    requires OnlyFace(faces) && Covers(t, faces, p) && HasFace(t, p)
    ensures var standing := Standing(upper, participants, faces, photos);
      Offered(standing, p) && HasFace(Upserts(map[], standing), p)
  {
    var standing := Standing(upper, participants, faces, photos);
    var o :| o in faces && o.pair == p;
    assert o in standing;
    UpsertsAreJoin(map[], standing, p);
    assert Below(Some(CoreOf(o.row)), CoreAt(Upserts(map[], standing), p));
  }

  // It is not more either when its confidence is backed.
  lemma BackedIsBelow(upper: Upper, participants: seq<Participant>, t: Table, faces: seq<Offer>, photos: seq<Photo>,
                      p: Pair)
    requires OnlyFace(faces) && Covers(t, faces, p) && HasFace(t, p)
    requires Backed(t[p].confidence, p, Standing(upper, participants, faces, photos))
    ensures Below(CoreAt(Rebuilt(upper, participants, t, photos), p),
                  CoreAt(Upserts(map[], Standing(upper, participants, faces, photos)), p))
  {
    var events, standing := EventOffers(upper, participants, photos), Standing(upper, participants, faces, photos);
    FaceIsStanding(upper, participants, t, faces, photos, p);
    UpsertsAreJoin(Stripped(t), events, p);
    UpsertsAreJoin(map[], standing, p);
    BackedIsNoMore(t[p].confidence, p, standing);
    assert IsAbove(CoreAt(Stripped(t), p), events, p, CoreAt(Upserts(map[], standing), p));
  }

  // A rebuild gives a pair the source and confidence that computing it from
  // scratch would, from the face offers and the current detections, if and only
  // if the pair has no face evidence or the confidence of its row is backed by
  // what stands.
  lemma RebuildIsAnewExactly(upper: Upper, participants: seq<Participant>, t: Table, faces: seq<Offer>,
                             photos: seq<Photo>, p: Pair)
    requires OnlyFace(faces) && Covers(t, faces, p)
    ensures var standing := Standing(upper, participants, faces, photos);
      CoreAt(Rebuilt(upper, participants, t, photos), p) == CoreAt(Upserts(map[], standing), p)
      <==> !HasFace(t, p) || Backed(t[p].confidence, p, standing)
  {
    var standing := Standing(upper, participants, faces, photos);
    var rebuilt, anew := CoreAt(Rebuilt(upper, participants, t, photos), p), CoreAt(Upserts(map[], standing), p);
    if !HasFace(t, p) {
      WithoutFaceIsAnew(upper, participants, t, faces, photos, p);
    } else {
      AnewIsBelow(upper, participants, t, faces, photos, p);
      FaceIsStanding(upper, participants, t, faces, photos, p);
      BackedIsNoMore(t[p].confidence, p, standing);
      RebuildKeepsFaceConfidence(upper, participants, t, photos, p);
      if Backed(t[p].confidence, p, standing) {
        BackedIsBelow(upper, participants, t, faces, photos, p);
        BelowIsOrder(rebuilt, anew, rebuilt);
      }
    }
  }

  lemma {:induction false} FacesAlone(faces: seq<Offer>, p: Pair)
    requires OnlyFace(faces)
    ensures !HasOcr(Upserts(map[], faces), p) && (HasFace(Upserts(map[], faces), p) <==> Offered(faces, p))
  {
    if faces != [] {
      var init, o := faces[..|faces| - 1], faces[|faces| - 1];
      assert faces == init + [o] && o in faces;
      FacesAlone(init, p);
      OfferedJoins(init, [o], p);
      OfferedOne(o, p);
    }
  }

  // The sources of a rebuild are always those of computing from scratch.
  lemma RebuildSourceIsAnew(upper: Upper, participants: seq<Participant>, t: Table, faces: seq<Offer>,
                            photos: seq<Photo>, p: Pair)
    requires OnlyFace(faces) && Covers(t, faces, p)
    ensures var rebuilt := Rebuilt(upper, participants, t, photos);
      var anew := Upserts(map[], Standing(upper, participants, faces, photos));
      (HasOcr(rebuilt, p) <==> HasOcr(anew, p)) && (HasFace(rebuilt, p) <==> HasFace(anew, p))
  {
    var events := EventOffers(upper, participants, photos);
    RebuildIsExact(upper, participants, t, photos, p);
    EventOffersAre(upper, participants, photos, p);
    FacesAlone(faces, p);
    UpsertsJoin(map[], faces, events);
    OcrOffersAdd(Upserts(map[], faces), events, p);
  }

  // ----- every history -----

  // What happens to an event's matches: an offer, or a rebuild with the
  // participants and detections of its time.
  datatype Change = Offering(offer: Offer) | Rebuilding(participants: seq<Participant>, photos: seq<Photo>)

  function After(upper: Upper, changes: seq<Change>): Table {
    if changes == [] then map[]
    else
      var before := After(upper, changes[..|changes| - 1]);
      match changes[|changes| - 1]
      case Offering(o) => Upsert(before, o)
      case Rebuilding(participants, photos) => Rebuilt(upper, participants, before, photos)
  }

  // The offers of a history, rebuilds apart.
  function OffersOf(changes: seq<Change>): seq<Offer> {
    if changes == [] then []
    else
      var before := OffersOf(changes[..|changes| - 1]);
      match changes[|changes| - 1]
      case Offering(o) => before + [o]
      case Rebuilding(_, _) => before
  }

  lemma FaceOffersAppend(offers: seq<Offer>, o: Offer)
    ensures FaceOffers(offers + [o]) == if o.row.source == Face then FaceOffers(offers) + [o] else FaceOffers(offers)
  {
    assert (offers + [o])[..|offers|] == offers;
  }

  lemma OfferKeepsCovers(t: Table, faces: seq<Offer>, o: Offer, p: Pair)
    requires Covers(t, faces, p) && o.row.source != Both
    ensures Covers(Upsert(t, o), if o.row.source == Face then faces + [o] else faces, p)
  {
    OfferedJoins(faces, [o], p);
    OfferedOne(o, p);
    if o.pair == p {
      UpsertJoins(t, o, None);
      forall x | x in faces && x.pair == p ensures Below(Some(CoreOf(x.row)), CoreAt(Upsert(t, o), p)) {
        BelowIsOrder(Some(CoreOf(x.row)), CoreAt(t, p), CoreAt(Upsert(t, o), p));
      }
    }
  }

  lemma RebuildKeepsCovers(upper: Upper, participants: seq<Participant>, t: Table, faces: seq<Offer>,
                           photos: seq<Photo>, p: Pair)
    requires OnlyFace(faces) && Covers(t, faces, p)
    ensures Covers(Rebuilt(upper, participants, t, photos), faces, p)
  {
    RebuildIsExact(upper, participants, t, photos, p);
    UpsertsAreJoin(Stripped(t), EventOffers(upper, participants, photos), p);
    forall x | x in faces && x.pair == p
      ensures Below(Some(CoreOf(x.row)), CoreAt(Rebuilt(upper, participants, t, photos), p))
    {
      assert Below(Some(CoreOf(x.row)), CoreAt(t, p));
      assert Below(Some(CoreOf(x.row)), CoreAt(Stripped(t), p));
      BelowIsOrder(Some(CoreOf(x.row)), CoreAt(Stripped(t), p), CoreAt(Rebuilt(upper, participants, t, photos), p));
    }
  }

  // In every history the table covers all face offers ever made.
  lemma {:induction false} HistoryCovers(upper: Upper, changes: seq<Change>, p: Pair)
    requires Single(OffersOf(changes))
    ensures OnlyFace(FaceOffers(OffersOf(changes)))
    ensures Covers(After(upper, changes), FaceOffers(OffersOf(changes)), p)
  {
    forall o | o in FaceOffers(OffersOf(changes)) ensures o.row.source == Face {
      FaceOffersAre(OffersOf(changes), o);
    }
    if changes != [] {
      var init, last := changes[..|changes| - 1], changes[|changes| - 1];
      HistoryCovers(upper, init, p);
      match last {
        case Offering(o) =>
          assert o in OffersOf(changes);
          FaceOffersAppend(OffersOf(init), o);
          OfferKeepsCovers(After(upper, init), FaceOffers(OffersOf(init)), o, p);
        case Rebuilding(participants, photos) =>
          RebuildKeepsCovers(upper, participants, After(upper, init), FaceOffers(OffersOf(init)), photos, p);
      }
    }
  }

  // After any history of offers and rebuilds, one more rebuild equals computing
  // the pair from scratch exactly when the pair has no face evidence or its
  // confidence is backed.
  lemma HistoryRebuildsAnewExactly(upper: Upper, participants: seq<Participant>, changes: seq<Change>,
                                   photos: seq<Photo>, p: Pair)
    requires Single(OffersOf(changes))
    ensures var t := After(upper, changes);
      var standing := Standing(upper, participants, FaceOffers(OffersOf(changes)), photos);
      CoreAt(Rebuilt(upper, participants, t, photos), p) == CoreAt(Upserts(map[], standing), p)
      <==> !HasFace(t, p) || Backed(t[p].confidence, p, standing)
  {
    HistoryCovers(upper, changes, p);
    RebuildIsAnewExactly(upper, participants, After(upper, changes), FaceOffers(OffersOf(changes)), photos, p);
  }

  ghost predicate AllBacked(offers: seq<Offer>, standing: seq<Offer>, p: Pair) {
    forall o | o in offers && o.pair == p :: Backed(o.row.confidence, p, standing)
  }

  lemma OffersCover(offers: seq<Offer>, p: Pair)
    requires Single(offers)
    ensures OnlyFace(FaceOffers(offers)) && Covers(Upserts(map[], offers), FaceOffers(offers), p)
  {
    FaceEvidenceIsOffered(offers, p);
    UpsertsAreJoin(map[], offers, p);
    forall o | o in FaceOffers(offers) ensures o.row.source == Face && o in offers {
      FaceOffersAre(offers, o);
    }
  }

  // For the first rebuild the condition is on the offers: each one ever made for
  // the pair is matched by one that stands and is at least as confident.
  lemma FirstRebuildIsAnewExactly(upper: Upper, participants: seq<Participant>, offers: seq<Offer>, photos: seq<Photo>,
                                  p: Pair)
    requires Single(offers)
    ensures var t, standing := Upserts(map[], offers), Standing(upper, participants, FaceOffers(offers), photos);
      CoreAt(Rebuilt(upper, participants, t, photos), p) == CoreAt(Upserts(map[], standing), p)
      <==> !HasFace(t, p) || AllBacked(offers, standing, p)
  {
    var t, standing := Upserts(map[], offers), Standing(upper, participants, FaceOffers(offers), photos);
    OffersCover(offers, p);
    RebuildIsAnewExactly(upper, participants, t, FaceOffers(offers), photos, p);
    if HasFace(t, p) {
      UpsertsAreJoin(map[], offers, p);
      var best := ConfidenceIsOffered(offers, p);
      forall o | o in offers && o.pair == p
        ensures Backed(t[p].confidence, p, standing) ==> Backed(o.row.confidence, p, standing)
      {
        assert Below(Some(CoreOf(o.row)), CoreAt(t, p));
        BackedIsMonotone(o.row.confidence, t[p].confidence, p, standing);
      }
    }
  }

  lemma BackedIsMonotone(a: Option<real>, b: Option<real>, p: Pair, standing: seq<Offer>)
    requires NoMore(a, b)
    ensures Backed(b, p, standing) ==> Backed(a, p, standing)
  {
  }

  // A face match at 0.5 that OCR once supported at 0.9 keeps 0.9 when no photo
  // supports it any more; from scratch it would have 0.5.
  lemma ConfidenceOutlivesOcr(upper: Upper, participants: seq<Participant>)
    ensures var p := Pair(0, 0);
      var offers := [Offer(p, Match(Face, "0.5000", Some(0.5))), Offer(p, Match(Ocr, "12", Some(0.9)))];
      && CoreAt(Rebuilt(upper, participants, Upserts(map[], offers), []), p) == Some(Core(Face, Some(0.9)))
      && CoreAt(Upserts(map[], Standing(upper, participants, FaceOffers(offers), [])), p)
         == Some(Core(Face, Some(0.5)))
  {
    var p := Pair(0, 0);
    var face, ocr := Offer(p, Match(Face, "0.5000", Some(0.5))), Offer(p, Match(Ocr, "12", Some(0.9)));
    assert [face, ocr][..1] == [face] && [face][..0] == [];
    assert Upserts(map[], [face]) == Upsert(map[], face);
    assert Upserts(map[], [face, ocr]) == Upsert(Upsert(map[], face), ocr);
    assert FaceOffers([face]) == [face] && FaceOffers([face, ocr]) == [face];
    assert Standing(upper, participants, [face], []) == [face];
  }
}
