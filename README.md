# Smart Seat allocation, modelled in Dafny

Smart Seat is a small restaurant seating backend. It keeps three record
collections: tables, walk-in customers and reservations. It has two operations
that append a record (`add_customer`, `book_table`) and one that decides
something (`allocate_table`). `allocate_table` does four things in order:

1. It drops the reservations whose expiry is not strictly after the current time.
2. It refuses with "No available tables right now" if no table is available.
3. It scores every walk-in (whole waiting minutes) and every surviving
   reservation (whole waiting minutes + 1). It refuses with "No customers
   waiting" if nobody is left to score.
4. It seats the highest-scoring party. Ties go to the party listed first:
   walk-ins come before reservations, and each group keeps its own order.
   The party gets the first available table whose capacity is closest to its
   size. That table becomes occupied.

The project has four modules:

- `Records` (records.dfy): the record datatypes, the clock arithmetic and the per-party scores.
- `Filtering` (filtering.dfy): the order-preserving list comprehension and the positions it keeps.
- `Ranking` (ranking.dfy): Python's stable descending `sort` and the first-minimum `min`.
- `Backend` (backend.dfy): the three handlers and the allocation pipeline.

The JSON files that the handlers load are passed in as sequences. The lists
they would save are returned. `AllocateTable` returns three things:

- the reservation list it saves, which it saves on every path, even before
  either error is raised;
- the table list it saves on success; on a refusal nothing is saved, so the input list is returned;
- the answer: the occupied table and the seated candidate, or one of the two errors.

Time is an integer count of microseconds, which is the resolution of Python's
`datetime`. `WaitingMinutes` copies `timedelta.seconds // 60` exactly. That
field is the seconds part of the difference once whole days are taken out, so
the count wraps at one day. A stamp d minutes in the future (d < 1440) reads
as 1440 - d minutes, so one just in the future reads as almost a whole day of
waiting. This is not plain "minutes elapsed", and the model follows the
code rather than that reading. `WaitingMinutes` proves that the two agree when
the difference is between zero and one day.

Two scenario methods, `Backend.SeatFirstWalkIn` and `Backend.SeatSamePartyAgain`,
use only the contracts. In both, one walk-in, Amy, has joined. In the first,
she is seated at the only table. In the second, table 1 is already occupied and Amy is still in the queue,
because allocation never removes anyone from the customer list (it does not
save that list at all). One call seats Amy at table 2.

## Model

| member | source | states |
|---|---|---|
| `Records.WaitingMinutes` | backend/main.py:82-84 | The result lies in 0..1439. It is the number of whole minutes in the difference after whole days (floor division) are removed. When `0 <= now - since` is less than a day, it is the floor of the elapsed minutes. |
| `Records.FutureStampWraps` | backend/main.py:81-83 | A stamp d whole minutes in the future (0 < d < 1440) reads as 1440 - d minutes of waiting. |
| `Records.ScoreExamples` | backend/main.py:85-101 | A walk-in who joined seven minutes ago scores 7 and a reservation booked seven minutes ago scores 8. Half a second more does not change the walk-in's score, and a join time one minute in the future wraps around to 1439. |
| `Records.WalkInCandidate` | backend/main.py:85-90 | A walk-in's candidate keeps the customer's name and group size, is marked walk-in, and scores exactly its waiting minutes with no bonus. |
| `Records.ReservationCandidate` | backend/main.py:96-101 | A reservation's candidate keeps the booking's name and group size, is marked reservation, and scores its waiting minutes plus one. |
| `Records.Misfit` | backend/main.py:113 | The key of the best-fit `min` is non-negative and is the size difference taken in one direction or the other. |
| `Filtering.Filter` | backend/main.py:68-71 | A list comprehension keeps only elements of the input that satisfy the condition, keeps every element that does, and is never longer than the input. |
| `Filtering.KeptIndices` | backend/main.py:68-71 | The kept positions are in range, strictly increasing, satisfy the condition, and include every position whose element satisfies it. |
| `Filtering.FilterSelectsKeptIndices` | backend/main.py:68-71 | The comprehension's output is element for element the input at the kept positions. In other words, it keeps exactly the matching elements in their original order. |
| `Filtering.FilterLengthIsCount` | backend/main.py:74 | The filtered list has as many elements as there are matching positions. |
| `Filtering.CountShrinks` | backend/main.py:74 | If the second list matches the condition only where the first also does, it has no more matching positions. |
| `Filtering.CountShrinksStrictly` | backend/main.py:74 | It has strictly fewer of them when the first matches at some position where the second does not. |
| `Filtering.FilterShrinksStrictly` | backend/main.py:74 | Its filtered list is then strictly shorter. |
| `Ranking.InsertByScore` | backend/main.py:107 | One insertion step of the sort adds exactly the new candidate to the list (as a multiset). |
| `Ranking.InsertKeepsSorted` | backend/main.py:107 | Inserting into a list sorted by descending score keeps it sorted. |
| `Ranking.SortByScoreDesc` | backend/main.py:107 | The sorted list is a permutation of the candidates, of the same length. Its order is stated by the sortedness and stability lemmas. |
| `Ranking.SortByScoreDescIsSorted` | backend/main.py:107 | The sorted list is in non-increasing score order. |
| `Ranking.InsertByScoreKeepsTies` | backend/main.py:107 | Among the candidates of any one score, an insertion step puts the inserted candidate in front of all those of that score already placed, and leaves their order alone. |
| `Ranking.SortByScoreDescIsStable` | backend/main.py:107 | The sort is stable: for every score, the candidates with that score come out in the same order as they went in. |
| `Ranking.SortedHeadIsFirstMax` | backend/main.py:107-108 | `candidates[0]` after the sort is the candidate at the first position holding the highest score. |
| `Ranking.BestFitIndex` | backend/main.py:111-114 | `min` returns the position of a table of least misfit, and every earlier table has a strictly larger misfit. |
| `Backend.AddCustomer` | backend/main.py:46-57 | Exactly one customer is appended, with `id = count + 1`, joined at `now` and waiting time 0. Existing records are unchanged. Ids numbered 1..n stay numbered 1..n+1, so the new id is not in use. |
| `Backend.BookTable` | backend/main.py:30-42 | Exactly one reservation is appended, with `id = count + 1`, status `"active"`, booked at `now` and expiring ten minutes later. Existing records are unchanged and the 1..n numbering is kept. The new reservation survives an allocation run at time `t` if and only if `t` is before its expiry. |
| `Backend.ActiveReservations` | backend/main.py:67-71 | Every surviving reservation comes from the input and expires strictly after `now`. Every input reservation that expires after `now` survives. One that expires exactly at `now` is dropped. |
| `Backend.ActiveReservationsInOrder` | backend/main.py:68-71 | The surviving list is exactly the input at the increasing positions whose reservation expires after `now`, so order is preserved. |
| `Backend.IdReusedAfterExpiry` | backend/main.py:33 | The `len + 1` numbering can repeat an id. With reservations numbered 1 and 2, once an allocation run after number 1's expiry has saved the filtered list, the next booking gets id 2, which number 2 still holds. |
| `Backend.AvailableTables` | backend/main.py:74 | The available list holds only tables of the input with status available, and holds every one of them. |
| `Backend.AvailableRank` | backend/main.py:74 | An available table appears in the available list at the rank of its position among the available positions. |
| `Backend.BestFitAmongAvailable` | backend/main.py:111-114 | The table `min` picks from the available list is the first available table in the full table list whose misfit is least. |
| `Backend.OccupyingShrinksAvailable` | backend/main.py:115-120 | Writing the occupied table back never frees a table, and the available list gets strictly shorter. |
| `Backend.OccupyTable` | backend/main.py:115-120 | The chosen table comes back with status occupied and its other fields unchanged. Every entry with its id is replaced by it, every other entry is unchanged, and the length is the same. |
| `Backend.BuildCandidates` | backend/main.py:79-101 | There is one candidate per customer followed by one per surviving reservation, in that order. Walk-ins score their waiting minutes and reservations their waiting minutes plus 1. |
| `Backend.AllocateTable` | backend/main.py:61-127 | The saved reservations are the expiry-filtered ones. The call refuses with no-available-tables if and only if no table is available, whatever the queue holds. It refuses with no-customers-waiting if and only if a table is available but nobody is left to score. It seats someone if and only if a table is available and someone is waiting. A refusal leaves the tables unchanged. On success the seated party is the earliest highest-scoring candidate, and the table is the first available table of least misfit, now occupied. The saved list replaces exactly the entries with that id, and strictly fewer tables are available, with none freed. |

## Left out

- File storage (`load_json`, `save_json`): the collections are passed in and returned as sequences, and a failure to read or write a file is not modelled.
- The HTTP layer: the FastAPI app, route decorators, `home`, `get_tables` (which only returns the stored list), `HTTPException` and the f-string response message. The two errors are an `AllocationError` datatype.
- Clock and parsing: `datetime.now()` and `datetime.fromisoformat` are replaced by integer microsecond instants. One `now` serves the whole allocation call, although the source reads the clock again for each scored party. It also serves `book_table`, although the source reads the clock twice there, so its expiry can be a few microseconds more than ten minutes after the booking. Malformed timestamps, aware/naive mixing and missing JSON keys are left out.
- Status strings: a table's status is a two-valued datatype. A stored status other than "available" or "occupied" cannot appear in the model. A reservation's `"active"` status is stored and never read.
- Candidate dictionaries become a `Candidate` datatype, and the `"walk-in"`/`"reservation"` type strings become `CandidateKind`.
- `backend/config.py`: it only reads an environment variable through `python-dotenv` and holds no logic.
- Concurrency: two simultaneous requests can read the same snapshot. Each handler is modelled as one indivisible read-compute-write step.
