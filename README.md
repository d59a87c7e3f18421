# Appointment store: a Dafny model

This project models the appointment store of the patient-intake assistant,
`appointments_manager.py`. The store is a JSON file holding a list of slot
records. Each record has an id, a doctor, a time, a location, a booked flag
and, once booked, the patient's intake record. The model covers the four
entry points and the pieces they are built from:

- `load_appointments` and `save_appointments`: the file is a field
  `file: Option<seq<Slot>>` of class `AppointmentStore.Store`. None means no
  file exists. Loading returns the records, or none when the file is missing.
  Saving replaces the contents.
- `get_available_slots`: the records that are not booked, in file order.
- `book_slot`: books the first record with the requested id and rewrites the
  file. It answers None when no record has that id, or when that record is
  already booked, and the file is then untouched. The pure function
  `Appointments.Book` tells the two failures apart. The method keeps the
  source's single None.
- `get_last_word`: the lower-cased last whitespace-separated word. It gives ""
  for "". For a non-empty string of whitespace only it raises IndexError, as
  `split()[-1]` does. The model returns `Err(IndexError)` in that case.
- `get_best_appointments`: scores each unbooked record and returns at most five
  records, best first. A record scores 100 when the referral's last word occurs
  in the doctor's last word, plus 1 when the requested city equals the city
  part of its location. Only records scoring above 0 are kept.
  - The sort is Python's stable `sorted(..., reverse=True)`.
  - A missing `location` or `doctor` key raises KeyError. A blank doctor or
    referral raises IndexError. Both are modelled as `Err` results.

Python's string built-ins are in module `PyStr`: `isspace`, `strip`,
`split()`, `split(",")[0]`, `in` and `lower`. The stable descending sort is in
module `PySorted`. `Option` and `Result` are in `Wrappers`.

The ranking is proved to equal a sort-free description: the unbooked slots
scoring 101, then those scoring 100, then those scoring 1. Each group keeps
store order, and the whole list is cut at five. This is lemma
`Appointments.BestAppointmentsByGroups`, and the other ranking properties
follow from it.

The model follows the code on these points:

- The requested city is lower-cased but not stripped
  (`appointments_manager.py:52`). Only the slot's city is stripped.
- A record counts as booked when its `booked` value is true. A missing key
  counts as not booked (lines 22, 34, 58).
- The loop's own `if slot.get("booked")` check (lines 58-59) never fires: its
  input comes from `get_available_slots`, which has already dropped booked
  records. The model keeps the check. It is unreachable because the contract of
  `Store.GetAvailableSlots` states that every record it returns is unbooked.
- `get_best_appointments` does raise: for a blank referral, a blank doctor
  name, or an unbooked record without `location` or `doctor`.

## Model

| member | source | states |
|---|---|---|
| AppointmentStore.Store.Load | appointments_manager.py:6-12 | A missing file loads as the empty list. An existing file loads as exactly the records it holds. |
| AppointmentStore.Store.Save | appointments_manager.py:14-17 | The file then holds exactly the given list, and loading gives that list back. |
| AppointmentStore.Store.GetAvailableSlots | appointments_manager.py:19-22 | Returns the available slots of the loaded list. A record is in the result exactly when it is in the file and not booked. |
| Appointments.Available | appointments_manager.py:22 | The list comprehension: never longer than its input. What it keeps, and in what order, is stated by AvailableMembers, AvailableAt and AvailableKeepsOrder. |
| Appointments.AvailableMembers | appointments_manager.py:22 | The filter is exact: a slot is kept if and only if it is in the list and not booked. |
| Appointments.AvailableAt | appointments_manager.py:22 | The unbooked slot at position j lands in the result right after the unbooked slots that precede it. |
| Appointments.AvailableKeepsOrder | appointments_manager.py:22 | The filter keeps order. An unbooked slot at i < j lands before everything the filter keeps from position j on. |
| Appointments.AvailableConcat | appointments_manager.py:22 | Filtering a concatenation is concatenating the filtered parts. |
| Appointments.FirstWithId | appointments_manager.py:32-33 | Finds the first position whose id equals the requested one, or None exactly when no record has that id. |
| Appointments.Book | appointments_manager.py:31-40 | Three outcomes. NotFound exactly when no record has the id. AlreadyBooked when the first such record is booked. Otherwise Booked: that record becomes booked with the patient's record attached, its other fields are unchanged, and every other record is unchanged. |
| AppointmentStore.Store.BookSlot | appointments_manager.py:24-40 | On success, returns the updated record and the file holds the list with only that record changed. For an unknown id or an already-booked slot, returns None and leaves the file (present or missing) as it was, i.e. nothing is saved. |
| Appointments.BookTwiceFails | appointments_manager.py:33-35 | After a successful booking of an id, booking the same id again fails as already booked, on the same slot. |
| Appointments.BookTakesOneAvailable | appointments_manager.py:22 | A successful booking removes exactly the booked slot from the available slots. The others keep their order. |
| Appointments.GetLastWord | appointments_manager.py:42-43 | Fails with IndexError if and only if the string is non-empty and all whitespace. The empty string gives "". |
| Appointments.LastWordIsFinalWord | appointments_manager.py:43 | For any string with a non-whitespace character, the result is the lower-cased final word: a run of non-whitespace that starts the string or follows whitespace, with only whitespace after it. |
| Appointments.FinalWordOfSlice | appointments_manager.py:43 | The word that ends the stripped string is the final word of the original string. |
| PyStr.Strip | appointments_manager.py:43 | The result is empty exactly when the string is all whitespace. Otherwise it starts and ends with non-whitespace. |
| PyStr.StripSlice | appointments_manager.py:43 | The stripped string is a contiguous slice of the input with only whitespace on either side. |
| PyStr.Split | appointments_manager.py:43 | Yields no words exactly when the string is all whitespace. |
| PyStr.SplitYieldsWords | appointments_manager.py:43 | Every word the split yields is non-empty and contains no whitespace. |
| PyStr.BeforeFirst | appointments_manager.py:62 | The result is a prefix without a comma, and it is followed by a comma when shorter than the input. |
| PyStr.Contains | appointments_manager.py:65 | True exactly when the needle occurs at some position of the haystack. |
| PyStr.LowerChar | appointments_manager.py:43 | Maps 'A'..'Z' to the letter 32 code points up ('a'..'z') and leaves every other character unchanged. It therefore keeps whitespace as whitespace and leaves no upper-case ASCII letter. |
| PyStr.Lower | appointments_manager.py:43 | The `.lower()` calls at lines 43, 52 and 62 preserve length. |
| PyStr.LowerEach | appointments_manager.py:43 | Lower-casing maps each character on its own through LowerChar. |
| Appointments.RequestedCity | appointments_manager.py:52 | The requested city is the caller's city lower-cased, of the same length, so it is not stripped. |
| Appointments.SlotCity | appointments_manager.py:62 | The city part of a location is never longer than the location. It is strictly shorter when the location contains a comma, since it stops before the first comma. |
| Appointments.SlotScore | appointments_manager.py:61-72 | Fails if and only if the record lacks a location or a doctor, or has a blank doctor. It fails with IndexError exactly in the blank-doctor case, since the location is read first. Otherwise the score is 0, 1, 100 or 101. |
| Appointments.ScoreMeaning | appointments_manager.py:65-70 | A score of at least 100 holds exactly when the referral's last word is non-empty and occurs in the doctor's last word. A score of 1 or 101 holds exactly when the city is non-empty and its lower-case form equals the slot's city. |
| Appointments.ScoreAll | appointments_manager.py:57-72 | The scoring loop adds at most one pair per record. What it produces is stated by ScoreAllFails, ScoreAllPairs, ScoreAllScores and ScoreAllByKey. |
| Appointments.ScoreAllFails | appointments_manager.py:57-72 | The scoring loop raises if and only if some unbooked slot makes scoring raise. |
| Appointments.ScoreAllPairs | appointments_manager.py:57-72 | When the loop completes, its pairs hold exactly the unbooked slots, in list order. |
| Appointments.ScoreAllScores | appointments_manager.py:57-72 | Each pair the loop produces holds its slot's score. |
| Appointments.ScoreAllByKey | appointments_manager.py:57-72 | The loop's pairs with score k are exactly the unbooked slots that score k, in list order. |
| Appointments.MatchingMembers | appointments_manager.py:57-72 | A slot is in the score-k group if and only if it is an unbooked slot of the list scoring k. |
| PySorted.SortDescending | appointments_manager.py:74 | The sort returns a permutation of its input in non-increasing key order. |
| PySorted.SortDescendingIsStable | appointments_manager.py:74 | The sort is stable: the elements of each key keep their input order. |
| Appointments.RankedByScore | appointments_manager.py:74 | Sorting and then keeping positive scores gives the pairs scoring 101, then 100, then 1, each in input order. |
| Appointments.Best | appointments_manager.py:74 | Sort, keep positive scores, cut: at most five slots. RankedByScore states which slots these are. |
| Appointments.RankByGroups | appointments_manager.py:51-76 | For any scorer with scores in {0, 1, 100, 101}, the ranking is the 101-group, then the 100-group, then the 1-group, cut at five. |
| Appointments.RankProperties | appointments_manager.py:74-76 | The result has at most five slots, each unbooked, in the list, with a positive score. Scores are non-increasing. With fewer than five, every unbooked positive-scoring slot is included. |
| Appointments.BestAppointments | appointments_manager.py:45-76 | A blank referral raises IndexError, and a successful result has at most five slots. The full statement is in the lemmas below. |
| Appointments.BestAppointmentsFails | appointments_manager.py:51-63 | Raises if and only if the referral is blank or some unbooked slot cannot be scored. A blank referral raises IndexError. |
| Appointments.BestAppointmentsRanked | appointments_manager.py:45-76 | A successful result is at most five unbooked store slots with positive query score, in non-increasing score order. It is complete when fewer than five come back. |
| Appointments.ReferralBeforeCity | appointments_manager.py:65-74 | Every slot that matches the referral (score at least 100) comes before every slot that scores less. |
| Appointments.BestAppointmentsByGroups | appointments_manager.py:45-76 | The result is the store's unbooked slots scoring 101, then 100, then 1, each in store order (ties keep list order), cut at five. |
| Appointments.EmptyQueryOffersNothing | appointments_manager.py:52-53 | With an empty city and an empty referral, a successful result is empty. |
| AppointmentStore.Store.GetBestAppointments | appointments_manager.py:45-76 | The loop computes exactly the model's ranking of the loaded records: the same result, and the same exception where the source raises one. |
| AppointmentStore.ScoreAllFailsEarly | appointments_manager.py:57-63 | Once a prefix of the scoring loop raises, the whole loop raises with the same exception. |

## Left out

- The JSON file format and the file system. The file is modelled as
  `Option<seq<Slot>>`. Malformed JSON, I/O errors and the indentation
  `json.dump` writes are not part of this model.
- Record fields of an unexpected JSON type. Each field is an Option of the
  type the program expects, so non-bool `booked` values and their Python
  truthiness are not modelled, nor are numeric ids of other types that compare
  equal to an int.
- Concurrency. Each entry point is atomic in the model, so the
  read-modify-write race between two concurrent bookings is not modelled.
- Object identity. `book_slot` returns the very dict it saved. The model
  returns an equal value.
- PyStr.Lower: lower-cases ASCII letters only. Python's `str.lower` also maps
  non-ASCII letters through the Unicode case tables, which are not modelled.
- PySorted.SortDescending: a stable insertion sort stands in for Python's
  Timsort. Two stable sorts by the same key give the same output, so only the
  algorithm differs.
- BestAppointmentsFails: says whether the ranking raises, and which exception
  only for a blank referral. Which exception an unscorable slot raises (the
  first such slot decides) is stated by `ScoreAll` and `SlotScore` and the
  method's contract, not by a separate lemma.
- The rest of the repository (the voice agent, address validation through the
  geocoding service, the confirmation e-mail, the webhook endpoint, the console
  front end, and the city extraction in the agent) is not part of this model.
