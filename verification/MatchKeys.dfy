// Which keys a text has, who owns a key, and what is offered for an event
// (backend/app/photographer.py).
module MatchKeys {
  import opened Common
  import opened Matches

  // ----- token characters -----

  ghost predicate IsToken(s: string) {
    forall i | 0 <= i < |s| :: 'A' <= s[i] <= 'Z' || '0' <= s[i] <= '9'
  }

  ghost predicate IsGap(s: string) {
    forall i | 0 <= i < |s| :: !('A' <= s[i] <= 'Z' || '0' <= s[i] <= '9')
  }

  lemma {:induction false} FilterAdds(s: string, t: string)
    ensures Filter(s + t) == Filter(s) + Filter(t)
  {
    if s == "" {
      assert s + t == t;
    } else {
      assert (s + t)[1..] == s[1..] + t;
      FilterAdds(s[1..], t);
    }
  }

  lemma {:induction false} TokenIsKept(s: string)
    requires IsToken(s)
    ensures Filter(s) == s
  {
    if s != "" {
      TokenIsKept(s[1..]);
    }
  }

  lemma {:induction false} GapIsDropped(s: string)
    requires IsGap(s)
    ensures Filter(s) == ""
  {
    if s != "" {
      GapIsDropped(s[1..]);
    }
  }

  // ----- the runs of a text -----

  ghost function Interleave(gaps: seq<string>, runs: seq<string>): string
    requires |gaps| == |runs| + 1
  {
    if runs == [] then gaps[0] else gaps[0] + runs[0] + Interleave(gaps[1..], runs[1..])
  }

  // The text is made of the runs and the gaps around them; no two runs touch.
  ghost predicate Splits(s: string, gaps: seq<string>, runs: seq<string>) {
    && |gaps| == |runs| + 1 && Interleave(gaps, runs) == s
    && (forall i | 0 <= i < |gaps| :: IsGap(gaps[i]))
    && (forall i | 0 < i < |runs| :: gaps[i] != "")
    && forall i | 0 <= i < |runs| :: runs[i] != "" && IsToken(runs[i])
  }

  lemma LaterRun(gap: string, run: string, rest: string, gaps: seq<string>, runs: seq<string>)
    requires Splits(rest, gaps, runs) && IsGap(gap) && run != "" && IsToken(run)
    requires runs == [] || gaps[0] != ""
    ensures Splits(gap + run + rest, [gap] + gaps, [run] + runs)
  {
    assert ([gap] + gaps)[1..] == gaps && ([run] + runs)[1..] == runs;
  }

  lemma WiderGap(c: char, rest: string, gaps: seq<string>, runs: seq<string>)
    requires Splits(rest, gaps, runs) && IsGap([c])
    ensures Splits([c] + rest, gaps[0 := [c] + gaps[0]], runs)
  {
    var wider := gaps[0 := [c] + gaps[0]];
    assert wider[1..] == gaps[1..];
    if runs != [] {
      assert [c] + (gaps[0] + runs[0] + Interleave(gaps[1..], runs[1..]))
          == ([c] + gaps[0]) + runs[0] + Interleave(gaps[1..], runs[1..]);
    }
  }

  lemma {:induction false} RunsSplit(s: string, run: string) returns (gaps: seq<string>)
    requires IsToken(run)
    ensures Splits(run + s, gaps, Runs(s, run))
    ensures run != "" ==> gaps[0] == ""
    decreases |s|
  {
    if s == "" {
      gaps := if run == "" then [""] else ["", ""];
      assert run + s == run;
      if run != "" {
        LaterRun("", run, "", [""], []);
        assert "" + run + "" == run;
      }
    } else if IsTokenChar(s[0]) {
      gaps := RunsSplit(s[1..], run + [s[0]]);
      assert run + [s[0]] + s[1..] == run + s;
    } else {
      var rest := RunsSplit(s[1..], "");
      assert "" + s[1..] == s[1..] && s == [s[0]] + s[1..];
      WiderGap(s[0], s[1..], rest, Runs(s[1..], ""));
      gaps := rest[0 := [s[0]] + rest[0]];
      if run == "" {
        assert "" + s == s;
        assert Runs(s, run) == Runs(s[1..], "");
      } else {
        LaterRun("", run, s, gaps, Runs(s[1..], ""));
        assert "" + run + s == run + s;
        gaps := [""] + gaps;
      }
    }
  }

  // The runs of a text are its maximal runs of token characters, in order.
  lemma RunsAreMaximal(s: string) returns (gaps: seq<string>)
    ensures Splits(s, gaps, Runs(s, ""))
  {
    gaps := RunsSplit(s, "");
    assert "" + s == s;
  }

  // ----- the candidates of a text -----

  // Upper-casing keeps what is upper case already.
  ghost predicate KeepsTokens(upper: Upper) {
    forall s: string | IsToken(s) :: upper(s) == s
  }

  lemma {:induction false} FilterIsToken(s: string)
    ensures IsToken(Filter(s))
  {
    if s != "" {
      FilterIsToken(s[1..]);
    }
  }

  lemma KeyOfToken(upper: Upper, token: string)
    requires KeepsTokens(upper) && IsToken(token)
    ensures Normalize(upper, token) == Take(token, 64)
  {
    TokenIsKept(token);
  }

  // The keys of a text: the first 64 token characters of all of it, and of each
  // of its runs.
  ghost predicate IsKey(upper: Upper, text: string, key: string) {
    && key != ""
    && (key == Take(Filter(upper(text)), 64) || exists run | run in Runs(upper(text), "") :: key == Take(run, 64))
  }

  lemma CandidatesAreKeys(upper: Upper, text: string, key: string)
    requires KeepsTokens(upper)
    ensures key in Candidates(upper, text) <==> IsKey(upper, text, key)
  {
    var tokens, runs, raw := Tokens(upper, text), Runs(upper(text), ""), Normalize(upper, text);
    DistinctHolds(upper, tokens, key);
    FilterIsToken(upper(text));
    KeyOfToken(upper, raw);
    var gaps := RunsAreMaximal(upper(text));
    forall token | token in tokens ensures Normalize(upper, token) == Take(token, 64) {
      assert token == raw || token in runs;
      KeyOfToken(upper, token);
    }
    if IsKey(upper, text, key) && key != raw {
      var run :| run in runs && key == Take(run, 64);
      assert run in tokens;
    }
    if raw != "" {
      assert tokens[0] == raw && Take(raw, 64) == raw;
    }
  }

  // More tokens only add candidates, at the end.
  lemma {:induction false} DistinctExtends(upper: Upper, tokens: seq<string>, more: seq<string>)
    ensures Distinct(upper, tokens) <= Distinct(upper, tokens + more)
  {
    if more == [] {
      assert tokens + more == tokens;
    } else {
      assert (tokens + more)[..|tokens + more| - 1] == tokens + more[..|more| - 1];
      DistinctExtends(upper, tokens, more[..|more| - 1]);
    }
  }

  // The key of the whole text comes first.
  lemma WholeTextIsFirst(upper: Upper, text: string)
    requires KeepsTokens(upper) && Filter(upper(text)) != ""
    ensures Candidates(upper, text) != [] && Candidates(upper, text)[0] == Take(Filter(upper(text)), 64)
  {
    var raw, runs := Normalize(upper, text), Runs(upper(text), "");
    FilterIsToken(upper(text));
    KeyOfToken(upper, raw);
    assert [raw][..0] == [];
    DistinctExtends(upper, [raw], runs);
  }

  // ----- the owner of a key -----

  // Participant i has the key and no later one does.
  ghost predicate LastWithKey(upper: Upper, participants: seq<Participant>, key: string, i: nat) {
    && i < |participants| && Normalize(upper, participants[i].bib) == key
    && forall j | i < j < |participants| :: Normalize(upper, participants[j].bib) != key
  }

  ghost predicate OwnedBy(upper: Upper, participants: seq<Participant>, key: string, id: nat) {
    exists i: nat :: LastWithKey(upper, participants, key, i) && participants[i].id == id
  }

  // Of several participants with a key, the last owns it.
  lemma {:induction false} OwnerIsLast(upper: Upper, participants: seq<Participant>, key: string)
    ensures match Owner(upper, participants, key)
            case None => key == "" || forall i | 0 <= i < |participants| :: Normalize(upper, participants[i].bib) != key
            case Some(id) => key != "" && OwnedBy(upper, participants, key, id)
  {
    if participants != [] {
      var last := |participants| - 1;
      OwnerIsLast(upper, participants[..last], key);
      if key != "" && Normalize(upper, participants[last].bib) == key {
        assert LastWithKey(upper, participants, key, last);
      } else if Owner(upper, participants, key).Some? {
        var i: nat :| LastWithKey(upper, participants[..last], key, i)
                 && participants[..last][i].id == Owner(upper, participants, key).value;
        assert LastWithKey(upper, participants, key, i) && participants[i].id == participants[..last][i].id;
      }
    }
  }

  // ----- the offers of an event -----

  ghost predicate OfferedByDetection(upper: Upper, participants: seq<Participant>, photo: nat, d: Detection, o: Offer) {
    && o.pair.photo == photo && o.row.source == Ocr && o.row.confidence == d.confidence
    && o.row.value in Candidates(upper, d.text) && Owner(upper, participants, o.row.value) == Some(o.pair.participant)
  }

  lemma {:induction false} KeyOffersExact(upper: Upper, participants: seq<Participant>, photo: nat, keys: seq<string>,
                                          confidence: Option<real>, o: Offer)
    ensures o in KeyOffers(upper, participants, photo, keys, confidence)
       <==> o.pair.photo == photo && o.row.source == Ocr && o.row.confidence == confidence
            && o.row.value in keys && Owner(upper, participants, o.row.value) == Some(o.pair.participant)
  {
    if keys != [] {
      var init, key := keys[..|keys| - 1], keys[|keys| - 1];
      KeyOffersExact(upper, participants, photo, init, confidence, o);
      assert keys == init + [key];
    }
  }

  ghost predicate OfferedByPhoto(upper: Upper, participants: seq<Participant>, photo: nat, detections: seq<Detection>,
                                 o: Offer)
  {
    exists d | d in detections :: OfferedByDetection(upper, participants, photo, d, o)
  }

  lemma {:induction false} PhotoOffersExact(upper: Upper, participants: seq<Participant>, photo: nat,
                                            detections: seq<Detection>, o: Offer)
    ensures o in PhotoOffers(upper, participants, photo, detections)
       <==> OfferedByPhoto(upper, participants, photo, detections, o)
  {
    if detections != [] {
      var init, d := detections[..|detections| - 1], detections[|detections| - 1];
      PhotoOffersExact(upper, participants, photo, init, o);
      KeyOffersExact(upper, participants, photo, Candidates(upper, d.text), d.confidence, o);
      assert detections == init + [d];
      if OfferedByPhoto(upper, participants, photo, init, o) {
        var x :| x in init && OfferedByDetection(upper, participants, photo, x, o);
        assert x in detections;
      }
      assert d in detections;
    }
  }

  ghost predicate OfferedByEvent(upper: Upper, participants: seq<Participant>, photos: seq<Photo>, o: Offer) {
    exists photo | photo in photos :: OfferedByPhoto(upper, participants, photo.id, photo.detections, o)
  }

  // What is offered for an event: for each detection of a photo and each of its
  // candidates that has an owner, the pair with the detection's confidence.
  lemma {:induction false} EventOffersExact(upper: Upper, participants: seq<Participant>, photos: seq<Photo>, o: Offer)
    ensures o in EventOffers(upper, participants, photos) <==> OfferedByEvent(upper, participants, photos, o)
  {
    if photos != [] {
      var init, photo := photos[..|photos| - 1], photos[|photos| - 1];
      EventOffersExact(upper, participants, init, o);
      PhotoOffersExact(upper, participants, photo.id, photo.detections, o);
      assert photos == init + [photo];
      if OfferedByEvent(upper, participants, init, o) {
        var x :| x in init && OfferedByPhoto(upper, participants, x.id, x.detections, o);
        assert x in photos;
      }
      assert photo in photos;
    }
  }

  // ----- the value of a match -----

  // A match by one source shows what that source offered last. When the other
  // source adds to it, its value is the start of the new one, and the offered
  // value the end, unless the text is too long.
  lemma ValueKeepsHistory(table: Table, o: Offer)
    requires 1 <= |o.row.value| <= 255
    ensures var after := Upsert(table, o);
      && after.Keys == table.Keys + {o.pair}
      && var value := after[o.pair].value;
        if o.pair !in table || table[o.pair].source == o.row.source then value == o.row.value
        else
          var was := table[o.pair].value;
          && |value| <= 255 && (|was| <= 255 ==> was <= value)
          && (o.row.source == Ocr && |was| + 7 + |o.row.value| <= 255 ==> value == was + " | ocr:" + o.row.value)
          && (o.row.source == Face && |was| + 8 + |o.row.value| <= 255 ==> value == was + " | face:" + o.row.value)
  {
    if o.pair in table && table[o.pair].source != o.row.source {
      var was := table[o.pair].value;
      var told := " | " + SourceName(o.row.source) + ":" + o.row.value;
      assert was + " | " + SourceName(o.row.source) + ":" + o.row.value == was + told;
      if o.row.source == Ocr {
        assert told == " | ocr:" + o.row.value;
      } else if o.row.source == Face {
        assert told == " | face:" + o.row.value;
      }
    }
  }

  // A new row shows what was offered, cut at 255 characters, or that it matched.
  lemma NewRowShowsOffer(table: Table, o: Offer)
    requires o.pair !in table
    ensures var value := Upsert(table, o)[o.pair].value;
      && (o.row.value == "" ==> value == "matched")
      && (o.row.value != "" ==> value <= o.row.value && |value| == Min(|o.row.value|, 255))
  {
  }

  // A rebuild starts from the face evidence: rows by face alone as they are, and
  // of the others the face part, with its confidence and a fixed text.
  lemma StrippedIsFacePart(table: Table, p: Pair)
    ensures p in Stripped(table) <==> p in table && table[p].source != Ocr
    ensures p in Stripped(table) ==>
      && Stripped(table)[p].source == Face && Stripped(table)[p].confidence == table[p].confidence
      && Stripped(table)[p].value == if table[p].source == Face then table[p].value
                                     else "face-preserved-after-ocr-rebuild"
  {
  }
}
