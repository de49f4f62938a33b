/** The notebook reaper: the background job that shuts down Jupyter notebooks
    idle for a day, the `LifecycleStream` that re-runs it, and the `Medium`
    future that lets one gateway replica at a time run it under a database
    lease. Instants here are integer microseconds since the Unix epoch, the
    finest unit the kernels' timestamps carry. */
module NotebookLifecycle {
  import opened Wrappers
  import opened Models
  import Strings
  import Store

  /** A day, in seconds: the idle time after which a notebook is reaped. */
  const MAX_IDLE_TIME: nat := 60 * 60 * 24
  /** Microseconds in a second. */
  const MICROS: nat := 1_000_000
  /** The name of the database lease the replicas compete for. */
  const BG_LEASE: string := "bridge-lease"

  // ---------------------------------------------------------------------
  // Kernel timestamps: `[year]-[month]-[day]T[hour]:[minute]:[second].[subsecond digits:6]Z`

  /** A calendar date and time of day, as the kernel reports it in UTC. */
  datatype DateTime = DateTime(year: nat, month: nat, day: nat, hour: nat, minute: nat, second: nat, micro: nat)

  predicate IsLeap(y: nat) {
    (y % 4 == 0 && y % 100 != 0) || y % 400 == 0
  }

  function DaysInMonth(y: nat, m: nat): nat {
    if m == 2 then (if IsLeap(y) then 29 else 28)
    else if m == 4 || m == 6 || m == 9 || m == 11 then 30
    else 31
  }

  /** The ranges the date-time parser accepts: four-digit years, real
      calendar days, no leap second, six sub-second digits. */
  predicate ValidDateTime(t: DateTime) {
    && t.year < 10000
    && 1 <= t.month <= 12
    && 1 <= t.day <= DaysInMonth(t.year, t.month)
    && t.hour < 24 && t.minute < 60 && t.second < 60
    && t.micro < MICROS
  }

  /** Days from 1970-01-01 to the given proleptic Gregorian date. */
  function DaysFromCivil(y: nat, m: nat, d: nat): int {
    var y1: int := if m <= 2 then y - 1 else y;
    var era := y1 / 400;
    var yoe := y1 - era * 400;
    var mp := (m + 9) % 12;
    var doy := (153 * mp + 2) / 5 + d - 1;
    var doe := yoe * 365 + yoe / 4 - yoe / 100 + doy;
    era * 146097 + doe - 719468
  }

  /** The instant a date-time denotes, in microseconds since the epoch. */
  function UnixMicros(t: DateTime): int {
    ((DaysFromCivil(t.year, t.month, t.day) * 86400 + t.hour * 3600 + t.minute * 60 + t.second) * MICROS as int)
    + t.micro
  }

  predicate IsDigit(c: char) {
    '0' <= c <= '9'
  }

  predicate AllDigits(s: string) {
    forall i :: 0 <= i < |s| ==> IsDigit(s[i])
  }

  /** The decimal value of a run of digits. */
  function DigitsValue(s: string): nat
    requires AllDigits(s)
    decreases |s|
  {
    if |s| == 0 then 0
    else DigitsValue(s[..|s| - 1]) * 10 + (s[|s| - 1] as int - '0' as int)
  }

  function Pow10(w: nat): nat {
    if w == 0 then 1 else 10 * Pow10(w - 1)
  }

  /** `n` written with exactly `w` digits, zero padded. */
  function Padded(n: nat, w: nat): (s: string)
    ensures |s| == w && AllDigits(s)
  {
    if w == 0 then "" else Padded(n / 10, w - 1) + [('0' as int + n % 10) as char]
  }

  /** Reading back a padded number gives the number when it fits. */
  lemma {:induction false} DigitsValuePadded(n: nat, w: nat)
    requires n < Pow10(w)
    ensures DigitsValue(Padded(n, w)) == n
  {
    if w > 0 {
      var s := Padded(n, w);
      assert s[..|s| - 1] == Padded(n / 10, w - 1);
      DigitsValuePadded(n / 10, w - 1);
    }
  }

  /** Padding the value of a run of digits to its own width gives the run back. */
  lemma {:induction false} PaddedDigitsValue(s: string)
    requires AllDigits(s)
    ensures DigitsValue(s) < Pow10(|s|)
    ensures Padded(DigitsValue(s), |s|) == s
    decreases |s|
  {
    if |s| > 0 {
      var init := s[..|s| - 1];
      PaddedDigitsValue(init);
      var v := DigitsValue(s);
      var d := s[|s| - 1] as int - '0' as int;
      assert v == DigitsValue(init) * 10 + d;
      assert v / 10 == DigitsValue(init) && v % 10 == d;
      assert s == init + [s[|s| - 1]];
    }
  }

  /** The kernel's text for a date-time. */
  function Format(t: DateTime): (s: string)
    ensures |s| == 27
  {
    Padded(t.year, 4) + "-" + Padded(t.month, 2) + "-" + Padded(t.day, 2) + "T"
    + Padded(t.hour, 2) + ":" + Padded(t.minute, 2) + ":" + Padded(t.second, 2) + "."
    + Padded(t.micro, 6) + "Z"
  }

  /** `PrimitiveDateTime::parse` with the kernel format: the whole text must
      be the format, every field in range. */
  function ParseDateTime(s: string): (r: Option<DateTime>)
    ensures r.Some? ==> ValidDateTime(r.value) && |s| == 27
  {
    if |s| == 27 && AllDigits(s[0..4]) && s[4] == '-' && AllDigits(s[5..7]) && s[7] == '-'
       && AllDigits(s[8..10]) && s[10] == 'T' && AllDigits(s[11..13]) && s[13] == ':'
       && AllDigits(s[14..16]) && s[16] == ':' && AllDigits(s[17..19]) && s[19] == '.'
       && AllDigits(s[20..26]) && s[26] == 'Z'
    then
      var t := DateTime(DigitsValue(s[0..4]), DigitsValue(s[5..7]), DigitsValue(s[8..10]),
                        DigitsValue(s[11..13]), DigitsValue(s[14..16]), DigitsValue(s[17..19]),
                        DigitsValue(s[20..26]));
      if ValidDateTime(t) then Some(t) else None
    else None
  }

  /** Parsing the text of a valid date-time gives it back. */
  lemma ParseFormat(t: DateTime)
    requires ValidDateTime(t)
    ensures ParseDateTime(Format(t)) == Some(t)
  {
    var s := Format(t);
    assert s[0..4] == Padded(t.year, 4);
    assert s[5..7] == Padded(t.month, 2);
    assert s[8..10] == Padded(t.day, 2);
    assert s[11..13] == Padded(t.hour, 2);
    assert s[14..16] == Padded(t.minute, 2);
    assert s[17..19] == Padded(t.second, 2);
    assert s[20..26] == Padded(t.micro, 6);
    DigitsValuePadded(t.year, 4);
    DigitsValuePadded(t.month, 2);
    DigitsValuePadded(t.day, 2);
    DigitsValuePadded(t.hour, 2);
    DigitsValuePadded(t.minute, 2);
    DigitsValuePadded(t.second, 2);
    DigitsValuePadded(t.micro, 6);
  }

  /** Whatever parses is the text of what it parses to. */
  lemma FormatParse(s: string)
    requires ParseDateTime(s).Some?
    ensures Format(ParseDateTime(s).value) == s
  {
    PaddedDigitsValue(s[0..4]);
    PaddedDigitsValue(s[5..7]);
    PaddedDigitsValue(s[8..10]);
    PaddedDigitsValue(s[11..13]);
    PaddedDigitsValue(s[14..16]);
    PaddedDigitsValue(s[17..19]);
    PaddedDigitsValue(s[20..26]);
    assert s == s[0..4] + "-" + s[5..7] + "-" + s[8..10] + "T" + s[11..13] + ":" + s[14..16] + ":"
                + s[17..19] + "." + s[20..26] + "Z";
  }

  // ---------------------------------------------------------------------
  // The idle rule

  /** What the notebook server reports per kernel: the text of its last
      activity and its connection count. */
  datatype Kernel = Kernel(lastActivity: string, connections: nat)

  /** `From<&Kernel> for OffsetDateTime`: the parsed activity, or the clock
      reading `clock` when the text does not parse. */
  function KernelTime(k: Kernel, clock: int): (t: int)
    ensures ParseDateTime(k.lastActivity).None? ==> t == clock
    ensures ParseDateTime(k.lastActivity).Some? ==> t == UnixMicros(ParseDateTime(k.lastActivity).value)
  {
    match ParseDateTime(k.lastActivity)
    case Some(dt) => UnixMicros(dt)
    case None => clock
  }

  /** The activity instants of the kernels with no connection, in order. */
  function IdleTimes(ks: seq<Kernel>, clock: int): (ts: seq<int>)
    ensures |ts| <= |ks|
    ensures (forall j :: 0 <= j < |ks| ==> ks[j].connections > 0) ==> ts == []
    decreases |ks|
  {
    if |ks| == 0 then []
    else (if ks[0].connections == 0 then [KernelTime(ks[0], clock)] else []) + IdleTimes(ks[1..], clock)
  }

  /** Membership in `IdleTimes`: exactly the times of unconnected kernels. */
  lemma {:induction false} IdleTimesMembers(ks: seq<Kernel>, clock: int, t: int)
    ensures t in IdleTimes(ks, clock) <==> exists j :: 0 <= j < |ks| && ks[j].connections == 0 && KernelTime(ks[j], clock) == t
    decreases |ks|
  {
    if |ks| > 0 {
      IdleTimesMembers(ks[1..], clock, t);
      if t in IdleTimes(ks[1..], clock) {
        var j :| 0 <= j < |ks[1..]| && ks[1..][j].connections == 0 && KernelTime(ks[1..][j], clock) == t;
        assert ks[j + 1] == ks[1..][j];
      }
      if exists j :: 0 <= j < |ks| && ks[j].connections == 0 && KernelTime(ks[j], clock) == t {
        var j :| 0 <= j < |ks| && ks[j].connections == 0 && KernelTime(ks[j], clock) == t;
        if j > 0 {
          assert ks[1..][j - 1] == ks[j];
        }
      }
    }
  }

  /** The last element of the sorted times, which is their maximum. */
  function Latest(ts: seq<int>): (r: Option<int>)
    ensures r.None? <==> |ts| == 0
    ensures r.Some? ==> r.value in ts && forall t :: t in ts ==> t <= r.value
    decreases |ts|
  {
    if |ts| == 0 then None
    else
      assert forall t :: t in ts ==> t == ts[0] || t in ts[1..] by {
        assert ts == [ts[0]] + ts[1..];
      }
      match Latest(ts[1..])
      case None => Some(ts[0])
      case Some(m) => Some(if ts[0] < m then m else ts[0])
  }

  /** At least a day has passed from `t` to `now`. */
  predicate IdleSince(t: int, now: int) {
    now - t >= MAX_IDLE_TIME * MICROS
  }

  /** A kernel whose activity text does not parse reads as the clock on
      conversion, which is never before `now`, so it is never idle. */
  lemma UnparsedNeverIdle(k: Kernel, now: int, clock: int)
    requires clock >= now
    requires ParseDateTime(k.lastActivity).None?
    ensures !IdleSince(KernelTime(k, clock), now)
  {
  }

  /** Decision for one notebook: `None` keeps it; `Some(u)` shuts it down,
      `u` being the user record kept with it. `user` is the stored user
      attached to the notebook, if it has a notebook entry. */
  function Verdict(ks: seq<Kernel>, user: Option<UserDoc>, now: int, clock: int): (v: Option<Option<UserDoc>>)
    // never opened: the stored start time decides; with no start time it is reaped without a user
    ensures |ks| == 0 && StartTime(user).Some? ==>
              (v.Some? <==> IdleSince(StartTime(user).value * MICROS, now)) && (v.Some? ==> v.value == user)
    ensures |ks| == 0 && StartTime(user).None? ==> v == Some(None)
    // opened: the latest activity among unconnected kernels decides
    ensures |ks| > 0 ==>
              (v.Some? <==> exists j :: 0 <= j < |ks| && ks[j].connections == 0 &&
                                        (forall i :: 0 <= i < |ks| && ks[i].connections == 0 ==>
                                           KernelTime(ks[i], clock) <= KernelTime(ks[j], clock)) &&
                                        IdleSince(KernelTime(ks[j], clock), now))
    ensures |ks| > 0 && v.Some? ==> v.value == user
  {
    if |ks| == 0 then
      match StartTime(user)
      case Some(t) => if IdleSince(t * MICROS, now) then Some(user) else None
      case None => Some(None)
    else
      var ts := IdleTimes(ks, clock);
      var r := Latest(ts);
      assert r.Some? ==> exists j :: 0 <= j < |ks| && ks[j].connections == 0 && KernelTime(ks[j], clock) == r.value by {
        if r.Some? {
          IdleTimesMembers(ks, clock, r.value);
        }
      }
      assert forall i :: 0 <= i < |ks| && ks[i].connections == 0 ==> KernelTime(ks[i], clock) in ts by {
        forall i | 0 <= i < |ks| && ks[i].connections == 0 ensures KernelTime(ks[i], clock) in ts {
          IdleTimesMembers(ks, clock, KernelTime(ks[i], clock));
        }
      }
      match r
      case Some(t) => if IdleSince(t, now) then Some(user) else None
      case None => None
  }

  /** The stored start time of a user's notebook, in seconds. */
  function StartTime(user: Option<UserDoc>): (t: Option<int>)
    ensures t.Some? <==> user.Some? && user.value.notebook.Some? && user.value.notebook.value.startTime.Some?
    ensures t.Some? ==> t == user.value.notebook.value.startTime
  {
    if user.Some? && user.value.notebook.Some? then user.value.notebook.value.startTime else None
  }

  /** `persist_pvc` of the user's notebook, `false` when there is none. */
  function PersistPvc(user: Option<UserDoc>): (p: bool)
    ensures p <==> user.Some? && user.value.notebook.Some? && user.value.notebook.value.persistPvc
  {
    match user
    case Some(u) => if u.notebook.Some? then u.notebook.value.persistPvc else false
    case None => false
  }

  /** The kernels of the deserialisation example, two connected and one
      not: only the unconnected one's activity is measured. */
  lemma KernelExample(a: string, b: string, c: string, now: int, clock: int)
    ensures var ks := [Kernel(a, 1), Kernel(b, 0), Kernel(c, 1)];
            Verdict(ks, None, now, clock).Some? <==> IdleSince(KernelTime(Kernel(b, 0), clock), now)
  {
    var ks := [Kernel(a, 1), Kernel(b, 0), Kernel(c, 1)];
    assert IdleTimes(ks[2..], clock) == [];
    assert IdleTimes(ks[1..], clock) == [KernelTime(Kernel(b, 0), clock)];
  }

  // ---------------------------------------------------------------------
  // Choosing the notebooks to shut down

  /** The parts of a running notebook pod the job reads. */
  datatype Pod = Pod(name: Option<string>, podIp: Option<string>)

  /** The notebook server's answer to `GET /api/kernels`: a transport, body
      or JSON failure, a non-success status, or the kernel list. */
  datatype Reply = Failed(error: string) | NotSuccess | Kernels(kernels: seq<Kernel>)

  /** A notebook to destroy, with the `persist_pvc` flag handed to the
      tear-down. */
  datatype Shutdown = Shutdown(subject: string, persistPvc: bool)

  /** A pod's (subject, IP): the name up to its first '-', and the pod IP;
      nothing when either is missing. */
  function PodDetail(p: Pod): (d: Option<(string, string)>)
    ensures d.Some? <==> p.name.Some? && p.podIp.Some?
    ensures d.Some? ==> && Strings.StartsWith(p.name.value, d.value.0) && '-' !in d.value.0
                        && (|d.value.0| < |p.name.value| ==> p.name.value[|d.value.0|] == '-')
                        && d.value.1 == p.podIp.value
  {
    if p.name.Some? && p.podIp.Some? then
      Strings.SplitHead(p.name.value, '-');
      Some((Strings.Split(p.name.value, "-")[0], p.podIp.value))
    else None
  }

  /** The subjects of the pods that yield a detail, in pod order. */
  function Subjects(pods: seq<Pod>): (ids: seq<string>)
    ensures forall id :: id in ids <==> exists j :: 0 <= j < |pods| && PodDetail(pods[j]).Some? && PodDetail(pods[j]).value.0 == id
    decreases |pods|
  {
    if |pods| == 0 then []
    else
      var rest := Subjects(pods[..|pods| - 1]);
      assert forall j :: 0 <= j < |pods| - 1 ==> pods[..|pods| - 1][j] == pods[j];
      var last := PodDetail(pods[|pods| - 1]);
      rest + (if last.Some? then [last.value.0] else [])
  }

  /** The `find_many` on `_id $in ids`: the stored users whose id is one of
      the subjects, in store order. */
  function Matching(users: seq<UserDoc>, ids: set<string>): (ms: seq<UserDoc>)
    ensures forall u :: u in ms <==> u in users && u.id in ids
    decreases |users|
  {
    if |users| == 0 then []
    else
      var rest := Matching(users[..|users| - 1], ids);
      var u := users[|users| - 1];
      assert users == users[..|users| - 1] + [u];
      rest + (if u.id in ids then [u] else [])
  }

  /** The user attached to a subject: the last found user with that id and a
      notebook entry. */
  function AttachedUser(found: seq<UserDoc>, id: string): (r: Option<UserDoc>)
    ensures r.Some? ==> r.value in found && r.value.id == id && r.value.notebook.Some?
    ensures r.None? ==> forall u :: u in found && u.id == id ==> u.notebook.None?
    decreases |found|
  {
    if |found| == 0 then None
    else
      var u := found[|found| - 1];
      assert found == found[..|found| - 1] + [u];
      if u.id == id && u.notebook.Some? then Some(u) else AttachedUser(found[..|found| - 1], id)
  }

  /** No subject occurs twice: the keys of a map. */
  predicate Distinct(order: seq<string>) {
    forall i, j :: 0 <= i < j < |order| ==> order[i] != order[j]
  }

  /** Without its last subject, a distinct order stays distinct and does not
      hold that subject. */
  lemma DistinctFront(order: seq<string>)
    requires Distinct(order) && |order| > 0
    ensures Distinct(order[..|order| - 1]) && order[|order| - 1] !in order[..|order| - 1]
  {
    var front := order[..|order| - 1];
    assert forall i :: 0 <= i < |front| ==> front[i] == order[i];
  }

  /** The notebooks marked for shutdown, visiting the subjects in `order`
      (the map's iteration order); the first failed reply ends the job. At
      most one shutdown per subject, and only of visited subjects. */
  function Plan(order: seq<string>, found: seq<UserDoc>, replies: map<string, Reply>, now: int, clock: int)
    : (r: Result<seq<Shutdown>, string>)
    requires Distinct(order)
    requires forall id :: id in order ==> id in replies
    ensures r.Ok? ==> |r.value| <= |order|
    ensures r.Ok? ==> forall k :: 0 <= k < |r.value| ==> r.value[k].subject in order
    ensures r.Ok? ==> forall k, l :: 0 <= k < l < |r.value| ==> r.value[k].subject != r.value[l].subject
    decreases |order|
  {
    if |order| == 0 then Ok([])
    else
      DistinctFront(order);
      var id := order[|order| - 1];
      match Plan(order[..|order| - 1], found, replies, now, clock)
      case Err(e) => Err(e)
      case Ok(acc) =>
        match replies[id]
        case Failed(e) => Err(e)
        case NotSuccess => Ok(acc)
        case Kernels(ks) =>
          match Verdict(ks, AttachedUser(found, id), now, clock)
          case None => Ok(acc)
          case Some(u) => Ok(acc + [Shutdown(id, PersistPvc(u))])
  }

  /** What the plan says: it fails exactly when some reply failed, with the
      first failure in visiting order; otherwise a notebook is listed exactly
      when its reply holds kernels and the idle rule reaps it, with the
      `persist_pvc` of the user kept with it. */
  lemma PlanMeaning(order: seq<string>, found: seq<UserDoc>, replies: map<string, Reply>, now: int, clock: int)
    requires Distinct(order)
    requires forall id :: id in order ==> id in replies
    ensures Plan(order, found, replies, now, clock).Err? <==> exists j :: 0 <= j < |order| && replies[order[j]].Failed?
    ensures Plan(order, found, replies, now, clock).Err? ==>
              exists j :: && 0 <= j < |order| && replies[order[j]].Failed?
                          && Plan(order, found, replies, now, clock).error == replies[order[j]].error
                          && forall i :: 0 <= i < j ==> !replies[order[i]].Failed?
    ensures Plan(order, found, replies, now, clock).Ok? ==>
              forall sd :: sd in Plan(order, found, replies, now, clock).value <==>
                exists j :: && 0 <= j < |order| && order[j] == sd.subject && replies[order[j]].Kernels?
                            && var v := Verdict(replies[order[j]].kernels, AttachedUser(found, order[j]), now, clock);
                               v.Some? && sd.persistPvc == PersistPvc(v.value)
  {
    PlanFails(order, found, replies, now, clock);
    PlanFirstFailure(order, found, replies, now, clock);
    PlanMembers(order, found, replies, now, clock);
  }

  /** The plan fails exactly when some reply failed. */
  lemma {:induction false} PlanFails(order: seq<string>, found: seq<UserDoc>, replies: map<string, Reply>, now: int, clock: int)
    requires Distinct(order)
    requires forall id :: id in order ==> id in replies
    ensures Plan(order, found, replies, now, clock).Err? <==> exists j :: 0 <= j < |order| && replies[order[j]].Failed?
    decreases |order|
  {
    if |order| > 0 {
      var init := order[..|order| - 1];
      DistinctFront(order);
      PlanFails(init, found, replies, now, clock);
      assert forall j :: 0 <= j < |init| ==> init[j] == order[j];
    }
  }

  /** A failed plan carries the error of the first failed reply. */
  lemma {:induction false} PlanFirstFailure(order: seq<string>, found: seq<UserDoc>, replies: map<string, Reply>, now: int, clock: int)
    requires Distinct(order)
    requires forall id :: id in order ==> id in replies
    ensures Plan(order, found, replies, now, clock).Err? ==>
              exists j :: && 0 <= j < |order| && replies[order[j]].Failed?
                          && Plan(order, found, replies, now, clock).error == replies[order[j]].error
                          && forall i :: 0 <= i < j ==> !replies[order[i]].Failed?
    decreases |order|
  {
    if |order| > 0 {
      var init := order[..|order| - 1];
      DistinctFront(order);
      PlanFails(init, found, replies, now, clock);
      PlanFirstFailure(init, found, replies, now, clock);
      assert forall j :: 0 <= j < |init| ==> init[j] == order[j];
      if Plan(init, found, replies, now, clock).Ok? && Plan(order, found, replies, now, clock).Err? {
        var j := |order| - 1;
        assert replies[order[j]].Failed? && Plan(order, found, replies, now, clock).error == replies[order[j]].error;
      }
    }
  }

  /** A successful plan lists exactly the reaped notebooks. */
  lemma {:induction false} PlanMembers(order: seq<string>, found: seq<UserDoc>, replies: map<string, Reply>, now: int, clock: int)
    requires Distinct(order)
    requires forall id :: id in order ==> id in replies
    ensures Plan(order, found, replies, now, clock).Ok? ==>
              forall sd :: sd in Plan(order, found, replies, now, clock).value <==>
                exists j :: && 0 <= j < |order| && order[j] == sd.subject && replies[order[j]].Kernels?
                            && var v := Verdict(replies[order[j]].kernels, AttachedUser(found, order[j]), now, clock);
                               v.Some? && sd.persistPvc == PersistPvc(v.value)
    decreases |order|
  {
    if |order| > 0 {
      var init := order[..|order| - 1];
      DistinctFront(order);
      PlanMembers(init, found, replies, now, clock);
      assert forall j :: 0 <= j < |init| ==> init[j] == order[j];
    }
  }

  /** Once a prefix of the visiting order fails, the whole plan fails the
      same way. */
  lemma {:induction false} PlanFailureSticks(order: seq<string>, n: nat, found: seq<UserDoc>,
                                             replies: map<string, Reply>, now: int, clock: int)
    requires n <= |order| && Distinct(order)
    requires forall id :: id in order ==> id in replies
    requires Plan(order[..n], found, replies, now, clock).Err?
    ensures Plan(order, found, replies, now, clock) == Plan(order[..n], found, replies, now, clock)
    decreases |order|
  {
    if n < |order| {
      var init := order[..|order| - 1];
      assert init[..n] == order[..n];
      PlanFailureSticks(init, n, found, replies, now, clock);
    } else {
      assert order[..n] == order;
    }
  }

  /** The attached user after one more found user. */
  lemma AttachedSnoc(found: seq<UserDoc>, k: nat, id: string)
    requires k < |found|
    ensures AttachedUser(found[..k + 1], id) ==
              if found[k].id == id && found[k].notebook.Some? then Some(found[k]) else AttachedUser(found[..k], id)
  {
    assert found[..k + 1][..k] == found[..k];
  }

  /** One step of the attaching loop keeps the attached users of the
      visited prefix. */
  lemma AttachStep(ids: set<string>, found: seq<UserDoc>, k: nat, a: map<string, Option<UserDoc>>)
    requires k < |found| && found[k].id in ids
    requires a.Keys == ids && forall id :: id in ids ==> a[id] == AttachedUser(found[..k], id)
    ensures var b := if found[k].notebook.Some? then a[found[k].id := Some(found[k])] else a;
            b.Keys == ids && forall id :: id in ids ==> b[id] == AttachedUser(found[..k + 1], id)
  {
    forall id | id in ids ensures AttachedUser(found[..k + 1], id) ==
        if found[k].id == id && found[k].notebook.Some? then Some(found[k]) else AttachedUser(found[..k], id) {
      AttachedSnoc(found, k, id);
    }
  }

  /** Attached users of the whole list, pointwise, are the attaching map. */
  lemma AttachedAll(ids: set<string>, found: seq<UserDoc>, a: map<string, Option<UserDoc>>)
    requires a.Keys == ids && forall id :: id in ids ==> a[id] == AttachedUser(found[..|found|], id)
    ensures a == map id | id in ids :: AttachedUser(found, id)
  {
    assert found[..|found|] == found;
  }

  /** The `for_each` over the found users: each one with a notebook entry
      is attached to its subject. */
  method AttachUsers(ids: set<string>, found: seq<UserDoc>) returns (addresses: map<string, Option<UserDoc>>)
    requires forall u :: u in found ==> u.id in ids
    ensures addresses == map id | id in ids :: AttachedUser(found, id)
  {
    addresses := map id | id in ids :: None;
    var k := 0;
    while k < |found|
      invariant 0 <= k <= |found|
      invariant addresses.Keys == ids
      invariant forall id :: id in ids ==> addresses[id] == AttachedUser(found[..k], id)
    {
      var u := found[k];
      AttachStep(ids, found, k, addresses);
      if u.notebook.Some? {
        addresses := addresses[u.id := Some(u)];
      }
      k := k + 1;
    }
    AttachedAll(ids, found, addresses);
  }

  /** The `for` loop over the subject map: each notebook's reply is judged
      and the reaped ones are collected in visiting order. */
  method Judge(order: seq<string>, addresses: map<string, Option<UserDoc>>, found: seq<UserDoc>,
               replies: map<string, Reply>, now: int, clock: int)
    returns (r: Result<seq<Shutdown>, string>)
    requires Distinct(order)
    requires forall id :: id in order ==> id in replies
    requires forall id :: id in order ==> id in addresses && addresses[id] == AttachedUser(found, id)
    ensures r == Plan(order, found, replies, now, clock)
  {
    var marked: seq<Shutdown> := [];
    var i := 0;
    while i < |order|
      invariant 0 <= i <= |order|
      invariant Plan(order[..i], found, replies, now, clock) == Ok(marked)
    {
      var id := order[i];
      assert order[..i + 1][..i] == order[..i];
      match replies[id] {
        case Failed(e) =>
          PlanFailureSticks(order, i + 1, found, replies, now, clock);
          return Err(e);
        case NotSuccess =>
        case Kernels(ks) =>
          var v := Verdict(ks, addresses[id], now, clock);
          if v.Some? {
            marked := marked + [Shutdown(id, PersistPvc(v.value))];
          }
      }
      i := i + 1;
    }
    assert order[..i] == order;
    return Ok(marked);
  }

  /** `notebook_lifecycle` up to the tear-down: `pods` is the pod listing,
      `users` the users collection, `order` the iteration order of the
      subject map, `replies` each notebook server's answer, `now` the clock
      when the replies are judged and `clock` its later readings. A `Shutdown`
      in the result is one `notebook_destroy` call, made by "system"; those
      calls' failures are only logged, so the job still succeeds. */
  method NotebookLifecycle(pods: Result<seq<Pod>, string>, users: seq<UserDoc>, order: seq<string>,
                           replies: map<string, Reply>, now: int, clock: int)
    returns (r: Result<seq<Shutdown>, string>)
    requires pods.Ok? ==> forall id :: id in order <==> id in Subjects(pods.value)
    requires Distinct(order)
    requires forall id :: id in order ==> id in replies
    ensures pods.Err? ==> r == Err(pods.error)
    ensures pods.Ok? && |pods.value| == 0 ==> r == Ok([])
    ensures pods.Ok? && |pods.value| > 0 && |Matching(users, set id | id in Subjects(pods.value))| == 0 ==>
              r == Err(Store.NONE_FOUND)
    ensures pods.Ok? && |pods.value| > 0 && |Matching(users, set id | id in Subjects(pods.value))| > 0 ==>
              r == Plan(order, Matching(users, set id | id in Subjects(pods.value)), replies, now, clock)
  {
    if pods.Err? {
      return Err(pods.error);
    }
    if |pods.value| == 0 {
      return Ok([]);
    }
    var ids := set id | id in Subjects(pods.value);
    var found := Matching(users, ids);
    if |found| == 0 {
      return Err(Store.NONE_FOUND);
    }
    var addresses := AttachUsers(ids, found);
    r := Judge(order, addresses, found, replies, now, clock);
  }

  // ---------------------------------------------------------------------
  // The poll-driven state machines

  /** `LifecycleStream`'s state: about to start a run, or waiting on one. */
  datatype Phase = Prep | Go

  /** One `poll_next` of the stream, from phase `p` after `runs` runs were
      started; `done` says whether the running job completes on this poll. */
  function StreamStep(p: Phase, runs: nat, done: bool): (r: (Phase, nat, Poll<Option<()>>))
    // the stream never ends
    ensures r.2 != Ready(None)
    // an item comes exactly when a started run completes, and the next poll starts another
    ensures r.2 == Ready(Some(())) <==> p == Go && done
    ensures r.2 == Ready(Some(())) ==> r.0 == Prep && r.1 == runs
    // Prep starts a run and waits
    ensures p == Prep ==> r == (Go, runs + 1, Pending)
    // a pending run leaves everything as it was
    ensures p == Go && !done ==> r == (Go, runs, Pending)
  {
    match p
    case Prep => (Go, runs + 1, Pending)
    case Go => if done then (Prep, runs, Ready(Some(()))) else (Go, runs, Pending)
  }

  /** `LifecycleStream`: it alternates between starting the job and waiting
      for it, yielding `()` after each run. */
  class LifecycleStream {
    var state: Phase
    /** How many times the job has been started. */
    var runs: nat

    constructor()
      ensures state == Prep && runs == 0
    {
      state := Prep;
      runs := 0;
    }

    /** `poll_next`; `done` is whether the job started last completes now. */
    method PollNext(done: bool) returns (r: Poll<Option<()>>)
      modifies this
      ensures (state, runs, r) == StreamStep(old(state), old(runs), done)
    {
      match state {
        case Prep =>
          runs := runs + 1;
          state := Go;
          r := Pending;
        case Go =>
          if done {
            state := Prep;
            r := Ready(Some(()));
          } else {
            r := Pending;
          }
      }
    }
  }

  /** Polls the stream once per element of `done`; the final phase, the runs
      started and the items yielded. */
  function Drive(p: Phase, runs: nat, done: seq<bool>): (r: (Phase, nat, nat))
    decreases |done|
  {
    if |done| == 0 then (p, runs, 0)
    else
      var step := StreamStep(p, runs, done[0]);
      var rest := Drive(step.0, step.1, done[1..]);
      (rest.0, rest.1, rest.2 + (if step.2.Ready? then 1 else 0))
  }

  /** Whatever the jobs do, each item ends one run: the runs started plus
      the one in flight at the start equal the items yielded plus the one in
      flight at the end. */
  lemma {:induction false} DriveCounts(p: Phase, runs: nat, done: seq<bool>)
    ensures var r := Drive(p, runs, done);
            && r.1 >= runs
            && r.1 - runs + (if p == Go then 1 else 0) == r.2 + (if r.0 == Go then 1 else 0)
    decreases |done|
  {
    if |done| > 0 {
      var step := StreamStep(p, runs, done[0]);
      DriveCounts(step.0, step.1, done[1..]);
    }
  }

  /** When every job completes at once, `2 * n` polls from a fresh stream
      yield `n` items, start `n` runs and end ready to start another, as in
      the ten-round loop over the stream. */
  lemma {:induction false} DriveAllDone(n: nat, runs: nat)
    ensures Drive(Prep, runs, seq(2 * n, _ => true)) == (Prep, runs + n, n)
  {
    if n > 0 {
      var done := seq(2 * n, _ => true);
      assert done[1..] == [true] + seq(2 * (n - 1), _ => true);
      assert done[1..][1..] == seq(2 * (n - 1), _ => true);
      DriveAllDone(n - 1, runs + 1);
    }
  }

  /** The fields of `Medium` that a poll changes: when the lease may next be
      sought, when the sleep fires, whether it has fired, whether this
      replica holds the lease, and how many lease requests were issued. */
  datatype MediumState = MediumState(expiration: int, sleepDeadline: int, slept: bool, leased: bool, leaseRequests: nat)

  /** What one poll observes: the clock, whether the shutdown signal has
      arrived, and what polling the pending lease request and the lifecycle
      stream would give. The last two are read only when polled. */
  datatype MediumInput = MediumInput(now: int, sigterm: bool, lease: Poll<Result<(), string>>, stream: Poll<Option<()>>)

  /** The sleep has fired by this poll. */
  predicate Fired(s: MediumState, i: MediumInput) {
    s.slept || i.now >= s.sleepDeadline
  }

  /** The replica holds the lease once the lease request is settled on this
      poll (only consulted at expiration). */
  predicate HoldsLease(s: MediumState, i: MediumInput) {
    s.leased || (i.lease.Ready? && i.lease.value.Ok?)
  }

  /** One `Medium::poll`, with durations `expMin` and `sleepMin`. */
  function MediumStep(s: MediumState, expMin: nat, sleepMin: nat, i: MediumInput): (r: (MediumState, Poll<()>))
    // nothing happens until the sleep fires
    ensures !Fired(s, i) ==> r == (s, Pending)
    // then the shutdown signal finishes the future
    ensures Fired(s, i) && i.sigterm ==> r == (s.(slept := true), Ready(()))
    // before expiration no lease or stream work happens: the sleep is re-armed
    ensures Fired(s, i) && !i.sigterm && i.now < s.expiration ==>
              r == (s.(slept := false, sleepDeadline := i.now + sleepMin), Pending)
    // at expiration without the lease, a pending request waits
    ensures Fired(s, i) && !i.sigterm && i.now >= s.expiration && !s.leased && i.lease.Pending? ==>
              r == (s.(slept := true), Pending)
    // a failed request is replaced and pushes the expiration back
    ensures Fired(s, i) && !i.sigterm && i.now >= s.expiration && !s.leased && i.lease.Ready? && i.lease.value.Err? ==>
              r == (s.(expiration := i.now + expMin, leaseRequests := s.leaseRequests + 1,
                       slept := false, sleepDeadline := i.now + sleepMin), Pending)
    // with the lease, a finished run resets the expiration and gives up the lease
    ensures Fired(s, i) && !i.sigterm && i.now >= s.expiration && HoldsLease(s, i) && i.stream.Ready? && i.stream.value.Some? ==>
              && r.1 == Pending && !r.0.leased && r.0.expiration == i.now + expMin
              && !r.0.slept && r.0.sleepDeadline == i.now + sleepMin
    // with the lease, a pending run waits holding it
    ensures Fired(s, i) && !i.sigterm && i.now >= s.expiration && HoldsLease(s, i) && i.stream.Pending? ==>
              r.1 == Pending && r.0.leased && r.0.slept && r.0.expiration == s.expiration
    // the future finishes only on the shutdown signal or the end of the stream under the lease
    ensures r.1.Ready? <==> Fired(s, i) && (i.sigterm || (i.now >= s.expiration && HoldsLease(s, i) && i.stream == Ready(None)))
    // a new lease request is issued exactly when the previous one settles
    ensures r.0.leaseRequests == s.leaseRequests +
              (if Fired(s, i) && !i.sigterm && i.now >= s.expiration && !s.leased && i.lease.Ready? then 1 else 0)
  {
    if !Fired(s, i) then (s, Pending)
    else
      var s1 := s.(slept := true);
      if i.sigterm then (s1, Ready(()))
      else if i.now >= s1.expiration && !s1.leased && i.lease.Pending? then (s1, Pending)
      else
        var s2 :=
          if i.now >= s1.expiration && !s1.leased then
            (if i.lease.value.Ok? then s1.(leased := true, leaseRequests := s1.leaseRequests + 1)
             else s1.(expiration := i.now + expMin, leaseRequests := s1.leaseRequests + 1))
          else s1;
        if i.now >= s1.expiration && s2.leased then
          match i.stream
          case Ready(Some(_)) =>
            (s2.(expiration := i.now + expMin, leased := false, slept := false, sleepDeadline := i.now + sleepMin), Pending)
          case Ready(None) => (s2, Ready(()))
          case Pending => (s2, Pending)
        else (s2.(slept := false, sleepDeadline := i.now + sleepMin), Pending)
  }

  /** With a clock that never goes back, the lease is only ever held once the
      expiration has passed. */
  lemma LeasedOnlyAfterExpiration(s: MediumState, expMin: nat, sleepMin: nat, i: MediumInput, before: int)
    requires s.leased ==> s.expiration <= before
    requires before <= i.now
    ensures var r := MediumStep(s, expMin, sleepMin, i);
            r.0.leased ==> r.0.expiration <= i.now
  {
  }

  /** `Medium`: the gate that runs the lifecycle stream only while this
      replica holds the database lease. Durations and instants are
      microseconds. */
  class Medium {
    var expiration: int
    var sleepDeadline: int
    var slept: bool
    var leased: bool
    var leaseRequests: nat
    const expMin: nat
    const sleepMin: nat

    function State(): MediumState
      reads this
    {
      MediumState(expiration, sleepDeadline, slept, leased, leaseRequests)
    }

    /** `Medium::new` at clock `now`: the first lease request is issued and
        the lease is sought once `expMin` has passed. */
    constructor(expMin: nat, sleepMin: nat, now: int)
      ensures this.expMin == expMin && this.sleepMin == sleepMin
      ensures State() == MediumState(now + expMin, now + sleepMin, false, false, 1)
    {
      this.expMin := expMin;
      this.sleepMin := sleepMin;
      expiration := now + expMin;
      sleepDeadline := now + sleepMin;
      slept := false;
      leased := false;
      leaseRequests := 1;
    }

    /** `Medium::poll`. */
    method Poll(i: MediumInput) returns (r: Poll<()>)
      modifies this
      ensures (State(), r) == MediumStep(old(State()), expMin, sleepMin, i)
    {
      if !slept {
        if i.now >= sleepDeadline {
          slept := true;
        } else {
          return Pending;
        }
      }
      if i.sigterm {
        return Ready(());
      }
      if i.now >= expiration {
        if !leased {
          match i.lease {
            case Ready(res) =>
              leaseRequests := leaseRequests + 1;
              if res.Ok? {
                leased := true;
              } else {
                expiration := i.now + expMin;
              }
            case Pending =>
              return Pending;
          }
        }
        if leased {
          match i.stream {
            case Ready(Some(_)) =>
              expiration := i.now + expMin;
              leased := false;
            case Ready(None) =>
              return Ready(());
            case Pending =>
              return Pending;
          }
        }
      }
      sleepDeadline := i.now + sleepMin;
      slept := false;
      return Pending;
    }
  }
}
