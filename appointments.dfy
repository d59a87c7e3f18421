/**
 * The appointment store's logic (appointments_manager.py) on values: the slot
 * record, the availability filter, booking a slot by id, the last-word
 * extraction and the ranking of slots against a requested city and a referral.
 */
module Appointments {
  import opened Wrappers
  import opened PyStr
  import opened PySorted

  /**
   * The intake record attached to a slot when it is booked: field name to
   * text, or to None for a field the caller left empty.
   */
  type PatientInfo = map<string, Option<string>>

  /**
   * One record of the appointments file. A field is None when the record has
   * no such key.
   */
  datatype Slot = Slot(
    id: Option<int>,
    doctor: Option<string>,
    time: Option<string>,
    location: Option<string>,
    booked: Option<bool>,
    patientInfo: Option<PatientInfo>)

  /**
   * The exceptions the ranking can raise: `split()[-1]` on a string with no
   * words, and `slot[key]` on a record without that key.
   */
  datatype Failure = IndexError | KeyError

  /** At most this many slots are offered. */
  const MaxResults := 5

  function Min(a: int, b: int): int
  {
    if a <= b then a else b
  }

  /** `slot.get("booked", False)`, read as a truth value. */
  predicate IsBooked(slot: Slot)
  {
    slot.booked == Some(true)
  }

  // ---------------------------------------------------------------- availability

  /** The slots that are not booked, in their order in `slots`. */
  function Available(slots: seq<Slot>): (r: seq<Slot>)
    ensures |r| <= |slots|
  {
    if slots == [] then []
    else (if IsBooked(slots[0]) then [] else [slots[0]]) + Available(slots[1..])
  }

  /** A slot is available exactly when it is in the list and not booked. */
  lemma {:induction false} AvailableMembers(slots: seq<Slot>)
    ensures forall s :: s in Available(slots) <==> s in slots && !IsBooked(s)
  {
    if slots != [] {
      AvailableMembers(slots[1..]);
      assert slots == [slots[0]] + slots[1..];
    }
  }

  lemma {:induction false} AvailableConcat(a: seq<Slot>, b: seq<Slot>)
    ensures Available(a + b) == Available(a) + Available(b)
  {
    if a == [] {
      assert a + b == b;
    } else {
      assert (a + b)[1..] == a[1..] + b;
      AvailableConcat(a[1..], b);
    }
  }

  /**
   * Where the filter puts the unbooked slot at position `j`: after the
   * unbooked slots before it, and nowhere else.
   */
  lemma AvailableAt(slots: seq<Slot>, j: nat)
    requires j < |slots| && !IsBooked(slots[j])
    ensures |Available(slots[..j])| < |Available(slots)|
    ensures Available(slots)[|Available(slots[..j])|] == slots[j]
  {
    AvailableAround(slots, j);
  }

  /**
   * The filter keeps order: an unbooked slot before position `j` lands before
   * every slot the filter keeps from position `j` on.
   */
  lemma AvailableKeepsOrder(slots: seq<Slot>, i: nat, j: nat)
    requires i < j <= |slots| && !IsBooked(slots[i])
    ensures |Available(slots[..i])| < |Available(slots[..j])|
  {
    var mid := slots[i..j];
    assert slots[..j] == slots[..i] + mid;
    AvailableConcat(slots[..i], mid);
    assert mid[0] == slots[i];
  }

  // ---------------------------------------------------------------- booking

  /** The position of the first slot with id `id`, if any. */
  function FirstWithId(slots: seq<Slot>, id: int): (r: Option<nat>)
    ensures r.None? <==> forall i :: 0 <= i < |slots| ==> slots[i].id != Some(id)
    ensures r.Some? ==> r.value < |slots| && slots[r.value].id == Some(id)
    ensures r.Some? ==> forall i :: 0 <= i < r.value ==> slots[i].id != Some(id)
  {
    if slots == [] then None
    else if slots[0].id == Some(id) then Some(0)
    else match FirstWithId(slots[1..], id)
      case None => None
      case Some(k) => Some(k + 1)
  }

  /**
   * What booking does to the slot list. The two failures are told apart here;
   * the store reports both as None.
   */
  datatype Booking =
    | NotFound
    | AlreadyBooked(index: nat)
    | Booked(index: nat, slot: Slot, slots: seq<Slot>)

  /** Booking `id` for `patient` on the slot list `slots`. */
  function Book(slots: seq<Slot>, id: int, patient: PatientInfo): (r: Booking)
    ensures r.NotFound? <==> forall i :: 0 <= i < |slots| ==> slots[i].id != Some(id)
    ensures !r.NotFound? ==>
      && r.index < |slots| && slots[r.index].id == Some(id)
      && (forall i :: 0 <= i < r.index ==> slots[i].id != Some(id))
      && (r.AlreadyBooked? <==> IsBooked(slots[r.index]))
    ensures r.Booked? ==>
      && IsBooked(r.slot) && r.slot.patientInfo == Some(patient)
      && r.slot.(booked := slots[r.index].booked, patientInfo := slots[r.index].patientInfo) == slots[r.index]
      && |r.slots| == |slots| && r.slots[r.index] == r.slot
      && forall j :: 0 <= j < |slots| && j != r.index ==> r.slots[j] == slots[j]
  {
    match FirstWithId(slots, id)
    case None => NotFound
    case Some(k) =>
      if IsBooked(slots[k]) then AlreadyBooked(k)
      else
        var slot := slots[k].(booked := Some(true), patientInfo := Some(patient));
        Booked(k, slot, slots[k := slot])
  }

  /** Once a booking of `id` has succeeded, booking `id` again fails on the same slot. */
  lemma BookTwiceFails(slots: seq<Slot>, id: int, p: PatientInfo, q: PatientInfo)
    requires Book(slots, id, p).Booked?
    ensures Book(Book(slots, id, p).slots, id, q) == AlreadyBooked(Book(slots, id, p).index)
  {
    var b := Book(slots, id, p);
    assert forall i :: 0 <= i < |slots| ==> b.slots[i].id == slots[i].id;
  }

  /** The available slots around position `k`. */
  lemma AvailableAround(slots: seq<Slot>, k: nat)
    requires k < |slots|
    ensures Available(slots) ==
      Available(slots[..k]) + ((if IsBooked(slots[k]) then [] else [slots[k]]) + Available(slots[k + 1..]))
  {
    var tail := slots[k..];
    assert slots == slots[..k] + tail;
    AvailableConcat(slots[..k], tail);
    assert tail[0] == slots[k] && tail[1..] == slots[k + 1..];
  }

  /**
   * A successful booking takes exactly one slot off the available list, the one
   * it booked, and the other available slots stay in their order.
   */
  lemma BookTakesOneAvailable(slots: seq<Slot>, id: int, p: PatientInfo)
    requires Book(slots, id, p).Booked?
    ensures var b := Book(slots, id, p);
      && Available(slots) == Available(slots[..b.index]) + ([slots[b.index]] + Available(slots[b.index + 1..]))
      && Available(b.slots) == Available(slots[..b.index]) + Available(slots[b.index + 1..])
  {
    var b := Book(slots, id, p);
    var k := b.index;
    AvailableAround(slots, k);
    AvailableAround(b.slots, k);
    assert b.slots[..k] == slots[..k];
    assert b.slots[k + 1..] == slots[k + 1..];
  }

  // ---------------------------------------------------------------- last word

  /** A string on which `split()[-1]` raises IndexError: non-empty and all whitespace. */
  predicate Blank(s: string)
  {
    s != [] && AllSpace(s)
  }

  /** `get_last_word`: the lower-cased last word, "" for "", IndexError for a blank string. */
  function GetLastWord(s: string): (r: Result<string, Failure>)
    ensures r.Err? <==> Blank(s)
    ensures r.Err? ==> r.error == IndexError
    ensures s == [] ==> r == Ok([])
  {
    if s == [] then Ok([])
    else
      var words := Split(Strip(s));
      if words == [] then Err(IndexError)
      else
        var word := words[|words| - 1];
        Ok(Lower(word))
  }

  /**
   * `s[i..j]` is the final word of `s`: a run of non-whitespace characters
   * that starts `s` or follows whitespace, with only whitespace after it.
   */
  predicate FinalWordAt(s: string, i: int, j: int)
  {
    && 0 <= i < j <= |s|
    && (forall k :: i <= k < j ==> !IsSpace(s[k]))
    && (forall k :: j <= k < |s| ==> IsSpace(s[k]))
    && (i == 0 || IsSpace(s[i - 1]))
  }

  /** The final word of a slice `t` of `s` with only whitespace around it is the final word of `s`. */
  lemma FinalWordInContext(s: string, t: string, a: nat, i: nat, j: nat)
    requires a + |t| <= |s| && t == s[a..a + |t|]
    requires AllSpace(s[..a]) && AllSpace(s[a + |t|..]) && FinalWordAt(t, i, j)
    ensures FinalWordAt(s, a + i, a + j) && s[a + i..a + j] == t[i..j]
  {
    assert forall k :: a <= k < a + |t| ==> s[k] == t[k - a];
    assert forall k :: 0 <= k < a ==> s[k] == s[..a][k];
    assert forall k :: a + |t| <= k < |s| ==> s[k] == s[a + |t|..][k - a - |t|];
  }

  /** In a string that ends in a word, that word is the final word. */
  lemma FinalWordEndsString(t: string, n: nat)
    requires t != [] && !IsSpace(t[|t| - 1]) && n == TrailingTokenLength(t)
    ensures FinalWordAt(t, |t| - n, |t|)
  {
    assert forall k :: |t| - n <= k < |t| ==> t[k] == t[|t| - n..][k - (|t| - n)];
  }

  /** `get_last_word` returns the lower-cased run that ends the stripped string. */
  lemma LastWordOfStripped(s: string, t: string, i: nat, j: nat)
    requires t == Strip(s) && t != [] && !IsSpace(t[|t| - 1])
    requires i <= j <= |s| && s[i..j] == t[|t| - TrailingTokenLength(t)..|t|]
    ensures GetLastWord(s) == Ok(Lower(s[i..j]))
  {
    SplitEndsWithWord(t);
  }

  /** The run that ends a slice `t` of `s` with only whitespace around it is the final word of `s`. */
  lemma FinalWordOfSlice(s: string, t: string, a: nat) returns (i: nat, j: nat)
    requires a + |t| <= |s| && t == s[a..a + |t|]
    requires AllSpace(s[..a]) && AllSpace(s[a + |t|..])
    requires t != [] && !IsSpace(t[|t| - 1])
    ensures FinalWordAt(s, i, j) && s[i..j] == t[|t| - TrailingTokenLength(t)..|t|]
  {
    var n := TrailingTokenLength(t);
    FinalWordEndsString(t, n);
    FinalWordInContext(s, t, a, |t| - n, |t|);
    i, j := a + (|t| - n), a + |t|;
  }

  /** `get_last_word` returns the lower-cased final word of any string that has one. */
  lemma LastWordIsFinalWord(s: string) returns (i: nat, j: nat)
    requires !AllSpace(s)
    ensures FinalWordAt(s, i, j) && GetLastWord(s) == Ok(Lower(s[i..j]))
  {
    var a := StripSlice(s);
    i, j := FinalWordOfSlice(s, Strip(s), a);
    LastWordOfStripped(s, Strip(s), i, j);
  }

  // ---------------------------------------------------------------- ranking

  /** `location.split(",")[0].strip().lower()`: the city part of a location. */
  function SlotCity(location: string): (r: string)
    ensures |r| <= |location|
    ensures ',' in location ==> |r| < |location|
  {
    Lower(Strip(BeforeFirst(location, ',')))
  }

  /** `city.lower() if city else ""`. */
  function RequestedCity(city: string): (r: string)
    ensures |r| == |city|
  {
    if city == [] then [] else Lower(city)
  }

  /** A slot the ranking cannot score: no location, no doctor, or a blank doctor's name. */
  predicate Unscorable(slot: Slot)
  {
    slot.location.None? || slot.doctor.None? || Blank(slot.doctor.value)
  }

  /**
   * The score of one slot: 100 when the referral's last word occurs in the
   * doctor's last word, plus 1 when the requested city is the slot's city.
   * The location is read before the doctor, so a missing location is the
   * KeyError reported even when the doctor is missing or blank too.
   */
  function SlotScore(slot: Slot, requestedCity: string, referralDoctor: string): (r: Result<int, Failure>)
    ensures r.Err? <==> Unscorable(slot)
    ensures r == Err(IndexError) <==> slot.location.Some? && slot.doctor.Some? && Blank(slot.doctor.value)
    ensures r.Ok? ==> r.value == 0 || r.value == 1 || r.value == 100 || r.value == 101
  {
    match slot.location
    case None => Err(KeyError)
    case Some(location) =>
      var slotCity := SlotCity(location);
      match slot.doctor
      case None => Err(KeyError)
      case Some(doctor) =>
        match GetLastWord(doctor)
        case Err(e) => Err(e)
        case Ok(doctorLastName) =>
          var referralPoints := if referralDoctor != [] && Contains(doctorLastName, referralDoctor) then 100 else 0;
          var cityPoints := if requestedCity != [] && requestedCity == slotCity then 1 else 0;
          Ok(referralPoints + cityPoints)
  }

  /** The score of `slot` for the query (`city`, `referral`) as given by the caller. */
  function QueryScore(slot: Slot, city: string, referral: string): Result<int, Failure>
  {
    match GetLastWord(referral)
    case Err(e) => Err(e)
    case Ok(referralDoctor) => SlotScore(slot, RequestedCity(city), referralDoctor)
  }

  /** A score of 100 or more means a referral match; a score of 1 or 101 a city match. */
  lemma ScoreMeaning(slot: Slot, city: string, referral: string)
    requires QueryScore(slot, city, referral).Ok?
    ensures var v := QueryScore(slot, city, referral).value;
      var referralDoctor := GetLastWord(referral).value;
      && (v >= 100 <==> referralDoctor != [] && Contains(GetLastWord(slot.doctor.value).value, referralDoctor))
      && (v == 1 || v == 101 <==> city != [] && Lower(city) == SlotCity(slot.location.value))
  {
  }

  /** The scoring of one slot for a fixed requested city and referral last word. */
  function Scorer(requestedCity: string, referralDoctor: string): Slot -> Result<int, Failure>
  {
    slot => SlotScore(slot, requestedCity, referralDoctor)
  }

  /** Every score `score` can give is one of 0, 1, 100 and 101. */
  ghost predicate ScoresPossible(score: Slot -> Result<int, Failure>)
  {
    forall s :: score(s).Ok? ==> score(s).value == 0 || score(s).value == 1 || score(s).value == 100 || score(s).value == 101
  }

  /** The slot of every pair. */
  function Slots(ps: seq<(int, Slot)>): (r: seq<Slot>)
    ensures |r| == |ps| && forall i :: 0 <= i < |ps| ==> r[i] == ps[i].1
  {
    seq(|ps|, i requires 0 <= i < |ps| => ps[i].1)
  }

  lemma SlotsConcat(a: seq<(int, Slot)>, b: seq<(int, Slot)>)
    ensures Slots(a + b) == Slots(a) + Slots(b)
  {
  }

  /** Some unbooked slot of `appointments` makes `score` raise. */
  predicate HasFailingSlot(appointments: seq<Slot>, score: Slot -> Result<int, Failure>)
  {
    exists i :: 0 <= i < |appointments| && !IsBooked(appointments[i]) && score(appointments[i]).Err?
  }

  lemma HasFailingSlotSnoc(appointments: seq<Slot>, slot: Slot, score: Slot -> Result<int, Failure>)
    ensures HasFailingSlot(appointments + [slot], score) <==>
      HasFailingSlot(appointments, score) || (!IsBooked(slot) && score(slot).Err?)
  {
    var all := appointments + [slot];
    if HasFailingSlot(appointments, score) {
      var i :| 0 <= i < |appointments| && !IsBooked(appointments[i]) && score(appointments[i]).Err?;
      assert all[i] == appointments[i];
    }
    if HasFailingSlot(all, score) {
      var i :| 0 <= i < |all| && !IsBooked(all[i]) && score(all[i]).Err?;
      if i < |appointments| {
        assert all[i] == appointments[i];
      }
    }
    assert all[|appointments|] == slot;
  }

  /**
   * The scoring loop: one (score, slot) pair per slot, skipping booked slots,
   * in list order; the first slot whose scoring raises makes it raise.
   */
  function ScoreAll(appointments: seq<Slot>, score: Slot -> Result<int, Failure>)
    : (r: Result<seq<(int, Slot)>, Failure>)
    ensures r.Ok? ==> |r.value| <= |appointments|
    decreases |appointments|
  {
    if appointments == [] then Ok([])
    else
      var n := |appointments| - 1;
      var slot := appointments[n];
      match ScoreAll(appointments[..n], score)
      case Err(e) => Err(e)
      case Ok(scored) =>
        if IsBooked(slot) then Ok(scored)
        else match score(slot)
          case Err(e) => Err(e)
          case Ok(points) => Ok(scored + [(points, slot)])
  }

  /** The scoring loop raises exactly when some unbooked slot makes `score` raise. */
  lemma {:induction false} ScoreAllFails(appointments: seq<Slot>, score: Slot -> Result<int, Failure>)
    ensures ScoreAll(appointments, score).Err? <==> HasFailingSlot(appointments, score)
    decreases |appointments|
  {
    if appointments != [] {
      var n := |appointments| - 1;
      var slot := appointments[n];
      assert appointments == appointments[..n] + [slot];
      ScoreAllFails(appointments[..n], score);
      HasFailingSlotSnoc(appointments[..n], slot, score);
    }
  }

  /** One step of the scoring loop: the last slot adds its pair unless it is booked. */
  lemma ScoreAllStep(appointments: seq<Slot>, score: Slot -> Result<int, Failure>)
    requires appointments != [] && ScoreAll(appointments, score).Ok?
    ensures var n := |appointments| - 1;
      var slot := appointments[n];
      && ScoreAll(appointments[..n], score).Ok?
      && (!IsBooked(slot) ==> score(slot).Ok?)
      && ScoreAll(appointments, score).value == ScoreAll(appointments[..n], score).value
           + (if IsBooked(slot) then [] else [(score(slot).value, slot)])
  {
  }

  lemma AvailableSingle(slot: Slot)
    ensures Available([slot]) == if IsBooked(slot) then [] else [slot]
  {
    assert [slot][1..] == [];
  }

  /** Every pair holds its slot's score. */
  ghost predicate ScoredBy(ps: seq<(int, Slot)>, score: Slot -> Result<int, Failure>)
  {
    forall i :: 0 <= i < |ps| ==> score(ps[i].1) == Ok(ps[i].0)
  }

  /**
   * When the scoring loop completes, it has paired every available slot, in
   * order, with a score.
   */
  lemma {:induction false} ScoreAllPairs(appointments: seq<Slot>, score: Slot -> Result<int, Failure>)
    requires ScoreAll(appointments, score).Ok?
    ensures Slots(ScoreAll(appointments, score).value) == Available(appointments)
    decreases |appointments|
  {
    if appointments != [] {
      var n := |appointments| - 1;
      var prefix, slot := appointments[..n], appointments[n];
      ScoreAllStep(appointments, score);
      ScoreAllPairs(prefix, score);
      assert appointments == prefix + [slot];
      AvailableConcat(prefix, [slot]);
      AvailableSingle(slot);
      var scored := ScoreAll(prefix, score).value;
      var extra := if IsBooked(slot) then [] else [(score(slot).value, slot)];
      SlotsConcat(scored, extra);
      assert Slots(extra) == Available([slot]);
    }
  }

  /** Each pair the scoring loop produces holds its slot's score. */
  lemma {:induction false} ScoreAllScores(appointments: seq<Slot>, score: Slot -> Result<int, Failure>)
    requires ScoreAll(appointments, score).Ok?
    ensures ScoredBy(ScoreAll(appointments, score).value, score)
    decreases |appointments|
  {
    if appointments != [] {
      var n := |appointments| - 1;
      var prefix, slot := appointments[..n], appointments[n];
      ScoreAllStep(appointments, score);
      ScoreAllScores(prefix, score);
      var scored := ScoreAll(prefix, score).value;
      var extra := if IsBooked(slot) then [] else [(score(slot).value, slot)];
      var all := scored + extra;
      assert forall i :: 0 <= i < |all| ==> all[i] == if i < |scored| then scored[i] else extra[i - |scored|];
    }
  }

  /** The unbooked slots of `slots` that `score` gives exactly `k`, in list order. */
  function Matching(slots: seq<Slot>, score: Slot -> Result<int, Failure>, k: int): (r: seq<Slot>)
    ensures |r| <= |slots|
  {
    if slots == [] then []
    else (if !IsBooked(slots[0]) && score(slots[0]) == Ok(k) then [slots[0]] else []) + Matching(slots[1..], score, k)
  }

  /** The slots `Matching` picks are unbooked slots of the list that score `k`. */
  lemma {:induction false} MatchingMembers(slots: seq<Slot>, score: Slot -> Result<int, Failure>, k: int)
    ensures forall s :: s in Matching(slots, score, k) <==> s in slots && !IsBooked(s) && score(s) == Ok(k)
  {
    if slots != [] {
      MatchingMembers(slots[1..], score, k);
      assert slots == [slots[0]] + slots[1..];
    }
  }

  lemma {:induction false} MatchingConcat(a: seq<Slot>, b: seq<Slot>, score: Slot -> Result<int, Failure>, k: int)
    ensures Matching(a + b, score, k) == Matching(a, score, k) + Matching(b, score, k)
  {
    if a == [] {
      assert a + b == b;
    } else {
      var head := if !IsBooked(a[0]) && score(a[0]) == Ok(k) then [a[0]] else [];
      assert (a + b)[0] == a[0] && (a + b)[1..] == a[1..] + b;
      MatchingConcat(a[1..], b, score, k);
      assert Matching(a + b, score, k) == head + (Matching(a[1..], score, k) + Matching(b, score, k));
      assert head + (Matching(a[1..], score, k) + Matching(b, score, k))
        == (head + Matching(a[1..], score, k)) + Matching(b, score, k);
    }
  }

  lemma MatchingSingle(slot: Slot, score: Slot -> Result<int, Failure>, k: int)
    ensures Matching([slot], score, k) == if !IsBooked(slot) && score(slot) == Ok(k) then [slot] else []
  {
    assert [slot][1..] == [];
  }

  lemma {:induction false} MatchingAvailable(slots: seq<Slot>, score: Slot -> Result<int, Failure>, k: int)
    ensures Matching(Available(slots), score, k) == Matching(slots, score, k)
  {
    if slots != [] {
      MatchingAvailable(slots[1..], score, k);
      var head := if IsBooked(slots[0]) then [] else [slots[0]];
      MatchingConcat(head, Available(slots[1..]), score, k);
      if head != [] {
        MatchingSingle(slots[0], score, k);
      }
    }
  }

  /** Picking the pairs with score `k` from the loop's output picks the slots scoring `k`. */
  lemma {:induction false} ScoreAllByKey(appointments: seq<Slot>, score: Slot -> Result<int, Failure>, k: int)
    requires ScoreAll(appointments, score).Ok?
    ensures Slots(WithKey(k, ScoreAll(appointments, score).value)) == Matching(appointments, score, k)
    decreases |appointments|
  {
    if appointments != [] {
      var n := |appointments| - 1;
      var prefix, slot := appointments[..n], appointments[n];
      ScoreAllStep(appointments, score);
      ScoreAllByKey(prefix, score, k);
      assert appointments == prefix + [slot];
      MatchingConcat(prefix, [slot], score, k);
      var scored := ScoreAll(prefix, score).value;
      var extra := if IsBooked(slot) then [] else [(score(slot).value, slot)];
      WithKeyConcat(k, scored, extra);
      StepByKey(slot, score, k);
      SlotsConcat(WithKey(k, scored), WithKey(k, extra));
      assert Slots(WithKey(k, scored + extra)) == Slots(WithKey(k, scored)) + Slots(WithKey(k, extra));
    }
  }

  /** The pair one slot adds to the scoring loop, picked by key, is the slot if it matches. */
  lemma StepByKey(slot: Slot, score: Slot -> Result<int, Failure>, k: int)
    requires !IsBooked(slot) ==> score(slot).Ok?
    ensures var extra := if IsBooked(slot) then [] else [(score(slot).value, slot)];
      Slots(WithKey(k, extra)) == Matching([slot], score, k)
  {
    var extra := if IsBooked(slot) then [] else [(score(slot).value, slot)];
    WithKeySingle(k, extra);
    MatchingSingle(slot, score, k);
  }

  /** The pairs with a positive score, in order. */
  function Positive(ps: seq<(int, Slot)>): seq<(int, Slot)>
  {
    if ps == [] then [] else (if ps[0].0 > 0 then [ps[0]] else []) + Positive(ps[1..])
  }

  /** Every pair's score is one of 0, 1, 100 and 101. */
  predicate PairScoresPossible(ps: seq<(int, Slot)>)
  {
    forall i :: 0 <= i < |ps| ==> ps[i].0 == 0 || ps[i].0 == 1 || ps[i].0 == 100 || ps[i].0 == 101
  }

  lemma {:induction false} WithKeyAbsent(k: int, ps: seq<(int, Slot)>)
    requires forall i :: 0 <= i < |ps| ==> ps[i].0 < k
    ensures WithKey(k, ps) == []
  {
    if ps != [] {
      WithKeyAbsent(k, ps[1..]);
    }
  }

  /**
   * On pairs already in non-increasing score order, keeping the positive
   * scores gives the 101s, then the 100s, then the 1s.
   */
  lemma {:induction false} PositiveOfSorted(t: seq<(int, Slot)>)
    requires NonIncreasing(t) && PairScoresPossible(t)
    ensures Positive(t) == WithKey(101, t) + (WithKey(100, t) + WithKey(1, t))
  {
    if t != [] {
      var head, rest := t[0], t[1..];
      SortedTail(t);
      PositiveOfSorted(rest);
      var w101, w100, w1 := WithKey(101, rest), WithKey(100, rest), WithKey(1, rest);
      assert Positive(t) == (if head.0 > 0 then [head] else []) + Positive(rest);
      if head.0 == 101 {
        assert WithKey(101, t) == [head] + w101;
        assert WithKey(100, t) == w100 && WithKey(1, t) == w1;
        assert [head] + (w101 + (w100 + w1)) == ([head] + w101) + (w100 + w1);
      } else if head.0 == 100 {
        WithKeyAbsent(101, rest);
        assert WithKey(100, t) == [head] + w100;
        assert WithKey(101, t) == [] && WithKey(1, t) == w1;
        assert [head] + (w100 + w1) == ([head] + w100) + w1;
      } else if head.0 == 1 {
        WithKeyAbsent(101, rest);
        WithKeyAbsent(100, rest);
        assert WithKey(1, t) == [head] + w1;
        assert WithKey(101, t) == [] && WithKey(100, t) == [];
      } else {
        WithKeyAbsent(101, rest);
        WithKeyAbsent(100, rest);
        WithKeyAbsent(1, rest);
        assert WithKey(101, t) == [] && WithKey(100, t) == [] && WithKey(1, t) == [];
      }
    }
  }

  /** The tail of sorted pairs of possible scores is such a list too, with keys at most the head's. */
  lemma SortedTail(t: seq<(int, Slot)>)
    requires t != [] && NonIncreasing(t) && PairScoresPossible(t)
    ensures NonIncreasing(t[1..]) && PairScoresPossible(t[1..])
    ensures forall i :: 0 <= i < |t[1..]| ==> t[1..][i].0 <= t[0].0
  {
    assert forall i :: 0 <= i < |t[1..]| ==> t[1..][i] == t[i + 1];
  }

  /**
   * The sort-filter of the ranking, stated without a sort: the pairs scoring
   * 101 in list order, then those scoring 100, then those scoring 1.
   */
  lemma RankedByScore(scored: seq<(int, Slot)>)
    requires PairScoresPossible(scored)
    ensures Positive(SortDescending(scored)) == WithKey(101, scored) + (WithKey(100, scored) + WithKey(1, scored))
  {
    var t := SortDescending(scored);
    forall i | 0 <= i < |t|
      ensures t[i].0 == 0 || t[i].0 == 1 || t[i].0 == 100 || t[i].0 == 101
    {
      assert t[i] in multiset(scored);
    }
    PositiveOfSorted(t);
    SortDescendingIsStable(101, scored);
    SortDescendingIsStable(100, scored);
    SortDescendingIsStable(1, scored);
  }

  /** `[slot for score, slot in sorted(...) if score > 0][:5]`. */
  function Best(scored: seq<(int, Slot)>): (r: seq<Slot>)
    ensures |r| <= MaxResults
  {
    var kept := Slots(Positive(SortDescending(scored)));
    kept[..Min(MaxResults, |kept|)]
  }

  /** The ranking of the available slots of `slots` by `score`. */
  function Rank(slots: seq<Slot>, score: Slot -> Result<int, Failure>): Result<seq<Slot>, Failure>
  {
    match ScoreAll(Available(slots), score)
    case Err(e) => Err(e)
    case Ok(scored) => Ok(Best(scored))
  }

  /**
   * The ranking is the unbooked slots scoring 101, then 100, then 1, each group
   * in list order, cut at five.
   */
  lemma RankByGroups(slots: seq<Slot>, score: Slot -> Result<int, Failure>)
    requires ScoresPossible(score)
    requires Rank(slots, score).Ok?
    ensures var ranked := Matching(slots, score, 101) + (Matching(slots, score, 100) + Matching(slots, score, 1));
      Rank(slots, score).value == ranked[..Min(MaxResults, |ranked|)]
  {
    var appointments := Available(slots);
    var scored := ScoreAll(appointments, score).value;
    ScoreAllPairs(appointments, score);
    ScoreAllScores(appointments, score);
    forall i | 0 <= i < |scored|
      ensures scored[i].0 == 0 || scored[i].0 == 1 || scored[i].0 == 100 || scored[i].0 == 101
    {
      assert score(scored[i].1) == Ok(scored[i].0);
    }
    RankedByScore(scored);
    SlotsConcat(WithKey(101, scored), WithKey(100, scored) + WithKey(1, scored));
    SlotsConcat(WithKey(100, scored), WithKey(1, scored));
    ScoreAllByKey(appointments, score, 101);
    ScoreAllByKey(appointments, score, 100);
    ScoreAllByKey(appointments, score, 1);
    MatchingAvailable(slots, score, 101);
    MatchingAvailable(slots, score, 100);
    MatchingAvailable(slots, score, 1);
  }

  /** `get_best_appointments(city, referral)` on the store contents `slots`. */
  function BestAppointments(slots: seq<Slot>, city: string, referral: string): (r: Result<seq<Slot>, Failure>)
    ensures Blank(referral) ==> r == Err(IndexError)
    ensures r.Ok? ==> |r.value| <= MaxResults
  {
    var requestedCity := RequestedCity(city);
    match GetLastWord(referral)
    case Err(e) => Err(e)
    case Ok(referralDoctor) => Rank(slots, Scorer(requestedCity, referralDoctor))
  }

  // ---------------------------------------------------------------- what the ranking promises

  /** The slots of `Matching` with their positions: each is an unbooked slot of the list scoring `k`. */
  lemma MatchingScores(slots: seq<Slot>, score: Slot -> Result<int, Failure>, k: int)
    ensures forall i :: 0 <= i < |Matching(slots, score, k)| ==>
      Matching(slots, score, k)[i] in slots && !IsBooked(Matching(slots, score, k)[i])
      && score(Matching(slots, score, k)[i]) == Ok(k)
  {
    MatchingMembers(slots, score, k);
  }

  /** The score of position `i` of the groups 101, 100 and 1 when the first two have `a` and `b` slots. */
  function GroupKey(i: int, a: int, b: int): (k: int)
    ensures k == 101 || k == 100 || k == 1
  {
    if i < a then 101 else if i < a + b then 100 else 1
  }

  /** Each position of the three groups back to back holds an unbooked slot of the list with that group's score. */
  lemma GroupsScores(slots: seq<Slot>, score: Slot -> Result<int, Failure>)
    ensures var m101, m100, m1 := Matching(slots, score, 101), Matching(slots, score, 100), Matching(slots, score, 1);
      var ranked := m101 + (m100 + m1);
      forall i :: 0 <= i < |ranked| ==>
        ranked[i] in slots && !IsBooked(ranked[i]) && score(ranked[i]) == Ok(GroupKey(i, |m101|, |m100|))
  {
    var m101, m100, m1 := Matching(slots, score, 101), Matching(slots, score, 100), Matching(slots, score, 1);
    var ranked := m101 + (m100 + m1);
    MatchingScores(slots, score, 101);
    MatchingScores(slots, score, 100);
    MatchingScores(slots, score, 1);
    forall i | 0 <= i < |ranked|
      ensures ranked[i] in slots && !IsBooked(ranked[i]) && score(ranked[i]) == Ok(GroupKey(i, |m101|, |m100|))
    {
      if i < |m101| {
        assert ranked[i] == m101[i];
      } else if i < |m101| + |m100| {
        assert ranked[i] == m100[i - |m101|];
      } else {
        assert ranked[i] == m1[i - |m101| - |m100|];
      }
    }
  }

  /** Positions scored by their group come in non-increasing score order. */
  lemma GroupsOrdered(ranked: seq<Slot>, score: Slot -> Result<int, Failure>, a: int, b: int)
    requires forall i :: 0 <= i < |ranked| ==> score(ranked[i]) == Ok(GroupKey(i, a, b))
    ensures forall i, j :: 0 <= i < j < |ranked| ==> score(ranked[i]).value >= score(ranked[j]).value
  {
    forall i, j | 0 <= i < j < |ranked|
      ensures score(ranked[i]).value >= score(ranked[j]).value
    {
      assert score(ranked[i]) == Ok(GroupKey(i, a, b));
      assert score(ranked[j]) == Ok(GroupKey(j, a, b));
    }
  }

  /** Every unbooked slot of the list with a positive score is in one of the three groups. */
  lemma GroupsComplete(slots: seq<Slot>, score: Slot -> Result<int, Failure>)
    requires ScoresPossible(score)
    ensures forall s :: s in slots && !IsBooked(s) && score(s).Ok? && score(s).value > 0 ==>
      s in Matching(slots, score, 101) + (Matching(slots, score, 100) + Matching(slots, score, 1))
  {
    MatchingMembers(slots, score, 101);
    MatchingMembers(slots, score, 100);
    MatchingMembers(slots, score, 1);
  }

  /**
   * Whatever the score: at most five slots, each an unbooked slot of the list
   * with a positive score, in non-increasing score order; and when fewer than
   * five come back, every unbooked slot with a positive score is among them.
   */
  lemma RankProperties(slots: seq<Slot>, score: Slot -> Result<int, Failure>)
    requires ScoresPossible(score)
    requires Rank(slots, score).Ok?
    ensures var r := Rank(slots, score).value;
      && |r| <= MaxResults
      && (forall i :: 0 <= i < |r| ==>
            r[i] in slots && !IsBooked(r[i]) && score(r[i]).Ok? && score(r[i]).value > 0)
      && (forall i, j :: 0 <= i < j < |r| ==> score(r[i]).value >= score(r[j]).value)
      && (|r| < MaxResults ==>
            forall s :: s in slots && !IsBooked(s) && score(s).Ok? && score(s).value > 0 ==> s in r)
  {
    var m101, m100 := Matching(slots, score, 101), Matching(slots, score, 100);
    var ranked := m101 + (m100 + Matching(slots, score, 1));
    var r := Rank(slots, score).value;
    RankByGroups(slots, score);
    GroupsScores(slots, score);
    GroupsComplete(slots, score);
    GroupsOrdered(ranked, score, |m101|, |m100|);
    assert forall i :: 0 <= i < |r| ==> r[i] == ranked[i];
    if |r| < MaxResults {
      assert r == ranked;
    }
  }

  /** Some unbooked slot of `slots` cannot be scored. */
  predicate HasUnscorable(slots: seq<Slot>)
  {
    exists s :: s in slots && !IsBooked(s) && Unscorable(s)
  }

  /**
   * `get_best_appointments` raises exactly when the referral is blank
   * (IndexError) or some unbooked slot lacks a location or a doctor or has a
   * blank doctor's name.
   */
  lemma BestAppointmentsFails(slots: seq<Slot>, city: string, referral: string)
    ensures BestAppointments(slots, city, referral).Err? <==> Blank(referral) || HasUnscorable(slots)
    ensures Blank(referral) ==> BestAppointments(slots, city, referral) == Err(IndexError)
  {
    if !Blank(referral) {
      var score := Scorer(RequestedCity(city), GetLastWord(referral).value);
      var appointments := Available(slots);
      AvailableMembers(slots);
      ScoreAllFails(appointments, score);
      if HasFailingSlot(appointments, score) {
        var i :| 0 <= i < |appointments| && !IsBooked(appointments[i]) && score(appointments[i]).Err?;
        assert appointments[i] in appointments;
      }
      if HasUnscorable(slots) {
        var s :| s in slots && !IsBooked(s) && Unscorable(s);
        var i :| 0 <= i < |appointments| && appointments[i] == s;
        assert score(appointments[i]).Err?;
      }
    }
  }

  /**
   * What a successful `get_best_appointments` returns: at most five unbooked
   * slots of the store, each with a positive score for the query, best score
   * first; fewer than five only when no other unbooked slot scores.
   */
  lemma BestAppointmentsRanked(slots: seq<Slot>, city: string, referral: string)
    requires BestAppointments(slots, city, referral).Ok?
    ensures var r := BestAppointments(slots, city, referral).value;
      && |r| <= MaxResults
      && (forall i :: 0 <= i < |r| ==>
            && r[i] in slots && !IsBooked(r[i])
            && QueryScore(r[i], city, referral).Ok? && QueryScore(r[i], city, referral).value > 0)
      && (forall i, j :: 0 <= i < j < |r| ==>
            QueryScore(r[i], city, referral).value >= QueryScore(r[j], city, referral).value)
      && (|r| < MaxResults ==> forall s ::
            (s in slots && !IsBooked(s) && QueryScore(s, city, referral).Ok? &&
             QueryScore(s, city, referral).value > 0) ==> s in r)
  {
    var score := Scorer(RequestedCity(city), GetLastWord(referral).value);
    assert forall s :: score(s) == QueryScore(s, city, referral);
    RankProperties(slots, score);
  }

  /**
   * A referral match ranks before every slot that matches only the city: a
   * slot scoring 100 or more comes before any slot scoring less.
   */
  lemma ReferralBeforeCity(slots: seq<Slot>, city: string, referral: string)
    requires BestAppointments(slots, city, referral).Ok?
    ensures var r := BestAppointments(slots, city, referral).value;
      forall i, j ::
        (0 <= i < |r| && 0 <= j < |r| && QueryScore(r[i], city, referral).Ok? &&
         QueryScore(r[j], city, referral).Ok? && QueryScore(r[i], city, referral).value >= 100 &&
         QueryScore(r[j], city, referral).value < 100) ==> i < j
  {
    var r := BestAppointments(slots, city, referral).value;
    BestAppointmentsRanked(slots, city, referral);
    forall i, j | 0 <= j <= i < |r|
      ensures QueryScore(r[j], city, referral).value >= QueryScore(r[i], city, referral).value
    {
    }
  }

  /**
   * The ranking in full: the unbooked slots scoring 101, then those scoring
   * 100, then those scoring 1, each group in store order, cut at five.
   */
  lemma BestAppointmentsByGroups(slots: seq<Slot>, city: string, referral: string)
    requires BestAppointments(slots, city, referral).Ok?
    ensures var score := Scorer(RequestedCity(city), GetLastWord(referral).value);
      var ranked := Matching(slots, score, 101) + (Matching(slots, score, 100) + Matching(slots, score, 1));
      BestAppointments(slots, city, referral).value == ranked[..Min(MaxResults, |ranked|)]
  {
    RankByGroups(slots, Scorer(RequestedCity(city), GetLastWord(referral).value));
  }

  /** The ranking once the referral has a last word: the scoring loop over the available slots, then the cut. */
  lemma BestAppointmentsByScoring(slots: seq<Slot>, city: string, referral: string)
    requires GetLastWord(referral).Ok?
    ensures BestAppointments(slots, city, referral) ==
      match ScoreAll(Available(slots), Scorer(RequestedCity(city), GetLastWord(referral).value))
      case Err(e) => Err(e)
      case Ok(scored) => Ok(Best(scored))
  {
  }

  /** With no city and no referral nothing scores, so nothing is offered. */
  lemma EmptyQueryOffersNothing(slots: seq<Slot>)
    ensures BestAppointments(slots, [], []).Ok? ==> BestAppointments(slots, [], []).value == []
  {
    var score := Scorer([], []);
    assert forall s :: score(s).Ok? ==> score(s).value == 0;
    assert GetLastWord([]) == Ok([]) && RequestedCity([]) == [];
    assert BestAppointments(slots, [], []) == Rank(slots, score);
    if Rank(slots, score).Ok? {
      RankByGroups(slots, score);
      NothingMatches(slots, score, 101);
      NothingMatches(slots, score, 100);
      NothingMatches(slots, score, 1);
    }
  }

  /** No slot matches a score that `score` never gives. */
  lemma {:induction false} NothingMatches(slots: seq<Slot>, score: Slot -> Result<int, Failure>, k: int)
    requires forall s :: score(s) != Ok(k)
    ensures Matching(slots, score, k) == []
  {
    if slots != [] {
      NothingMatches(slots[1..], score, k);
    }
  }
}
