/** The three record collections of the seating backend (tables, walk-in
    customers, reservations), the scored candidate the allocator builds, and
    the clock arithmetic the scorer uses. */
module Records {

  /** A naive `datetime`, counted in microseconds from an arbitrary origin
      (microseconds are the resolution of Python's `datetime`). */
  type Instant = int

  const MicrosPerSecond: int := 1_000_000
  const MicrosPerMinute: int := 60 * MicrosPerSecond
  const MicrosPerDay: int := 86_400 * MicrosPerSecond

  /** A reservation lapses ten minutes after it is booked. */
  const ReservationLifetime: int := 10 * MicrosPerMinute

  datatype TableStatus = Available | Occupied

  datatype Table = Table(id: int, size: int, status: TableStatus)

  /** `waitingTime` is stored as 0 and never read. */
  datatype Customer = Customer(id: int, name: string, groupSize: int, joinedAt: Instant, waitingTime: int)

  datatype Reservation = Reservation(id: int, name: string, groupSize: int, bookedAt: Instant, expiresAt: Instant, status: string)

  datatype CandidateKind = WalkIn | Booked

  /** A waiting party as the allocator ranks it. */
  datatype Candidate = Candidate(name: string, groupSize: int, priorityScore: int, kind: CandidateKind)

  /** `(now - since).seconds // 60`. A Python `timedelta` keeps its `seconds`
      component in [0, 86400) and puts whole days (possibly negative) in
      `days`, so this is the number of whole minutes elapsed once whole days
      are discarded: it never reaches a day, and a `since` d minutes in the
      future (d < 1440) reads as 1440 - d minutes. */
  function WaitingMinutes(now: Instant, since: Instant): (minutes: int)
    ensures 0 <= minutes < 24 * 60
    ensures var days := (now - since) / MicrosPerDay;
            minutes * MicrosPerMinute <= now - since - days * MicrosPerDay < (minutes + 1) * MicrosPerMinute
    ensures 0 <= now - since < MicrosPerDay ==>
              minutes * MicrosPerMinute <= now - since < (minutes + 1) * MicrosPerMinute
  {
    ((now - since) % MicrosPerDay) / MicrosPerMinute
  }

  /** A walk-in who joined seven minutes ago scores 7 and a reservation
      booked seven minutes ago scores 8; half a second more changes neither,
      and a join time one minute in the future scores 23 hours 59 minutes. */
  lemma ScoreExamples(c: Customer, r: Reservation, now: Instant)
    requires c.joinedAt == now - 7 * MicrosPerMinute && r.bookedAt == now - 7 * MicrosPerMinute
    ensures WalkInCandidate(c, now).priorityScore == 7
    ensures ReservationCandidate(r, now).priorityScore == 8
    ensures WalkInCandidate(c, now + MicrosPerSecond / 2).priorityScore == 7
    ensures WalkInCandidate(c, c.joinedAt - MicrosPerMinute).priorityScore == 24 * 60 - 1
  {
  }

  /** A stamp `d` whole minutes in the future reads as `1440 - d` minutes
      of waiting: one just ahead reads as almost a whole day. */
  lemma FutureStampWraps(now: Instant, since: Instant, d: int)
    requires 0 < d < 24 * 60 && since == now + d * MicrosPerMinute
    ensures WaitingMinutes(now, since) == 24 * 60 - d
  {
  }

  /** A walk-in's candidate: its waiting minutes with no bonus. */
  function WalkInCandidate(c: Customer, now: Instant): (cand: Candidate)
    ensures cand.kind == WalkIn && cand.name == c.name && cand.groupSize == c.groupSize
    ensures cand.priorityScore == WaitingMinutes(now, c.joinedAt)
  {
    Candidate(c.name, c.groupSize, WaitingMinutes(now, c.joinedAt) + 0, WalkIn)
  }

  /** A reservation's candidate: its waiting minutes plus a one-point bonus. */
  function ReservationCandidate(r: Reservation, now: Instant): (cand: Candidate)
    ensures cand.kind == Booked && cand.name == r.name && cand.groupSize == r.groupSize
    ensures cand.priorityScore == WaitingMinutes(now, r.bookedAt) + 1
  {
    Candidate(r.name, r.groupSize, WaitingMinutes(now, r.bookedAt) + 1, Booked)
  }

  /** Distance between a table's capacity and a party's size. */
  function Misfit(t: Table, groupSize: int): (d: int)
    ensures d >= 0
    ensures d == t.size - groupSize || d == groupSize - t.size
  {
    if t.size >= groupSize then t.size - groupSize else groupSize - t.size
  }
}
