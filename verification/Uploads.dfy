/** Uploads to the attachment cache and removals from it, interleaved (server/file_cache.go): an upload reads
    the room that is left before its copy and adds to the total after it; a removal measures the directory,
    half-written files included, and sets the total to that later. */
module Uploads {

  /** An upload under way: the room it has read, and what it has written so far. */
  datatype Upload = Upload(room: int, written: int)

  /** stored is the size of the complete files, measured what removals under way have measured. */
  datatype State = State(limit: int, total: int, stored: int, uploads: map<nat, Upload>, measured: map<nat, int>)

  datatype Step =
    | Begin(id: nat)
    | Grow(id: nat, size: int)
    | Finish(id: nat)
    | Abort(id: nat)
    | Delete(size: int)
    | Measure(removal: nat)
    | SetTotal(removal: nat)
    | TakeStock

  function Room(s: State): int { if s.limit - s.total < 0 then 0 else s.limit - s.total }

  function Rooms(uploads: map<nat, Upload>): map<nat, int> { map id | id in uploads :: uploads[id].room }

  function Writtens(uploads: map<nat, Upload>): map<nat, int> { map id | id in uploads :: uploads[id].written }

  /** The size of the directory. */
  ghost function Disk(s: State): int { s.stored + Sum(Writtens(s.uploads)) }

  predicate Enabled(s: State, e: Step) {
    match e
    case Begin(id) => id !in s.uploads
    case Grow(id, size) => id in s.uploads && size >= 0 && s.uploads[id].written + size <= s.uploads[id].room
    case Finish(id) => id in s.uploads
    case Abort(id) => id in s.uploads
    case Delete(size) => 0 <= size <= s.stored
    case Measure(removal) => removal !in s.measured
    case SetTotal(removal) => removal in s.measured
    case TakeStock => true
  }

  /** TakeStock is a removal that measures and sets the total without anything in between. */
  ghost function Apply(s: State, e: Step): State
    requires Enabled(s, e)
  {
    match e
    case Begin(id) => s.(uploads := s.uploads[id := Upload(Room(s), 0)])
    case Grow(id, size) => s.(uploads := s.uploads[id := Upload(s.uploads[id].room, s.uploads[id].written + size)])
    case Finish(id) =>
      var size := s.uploads[id].written;
      s.(total := s.total + size, stored := s.stored + size, uploads := s.uploads - {id})
    case Abort(id) => s.(uploads := s.uploads - {id})
    case Delete(size) => s.(stored := s.stored - size)
    case Measure(removal) => s.(measured := s.measured[removal := Disk(s)])
    case SetTotal(removal) => s.(total := s.measured[removal], measured := s.measured - {removal})
    case TakeStock => s.(total := Disk(s))
  }

  /** What a run may do: at most n uploads at a time; stock may be taken while an upload is under way
      (overlap); uploads may go on between measuring and setting the total (stale). */
  datatype Rule = Rule(n: nat, overlap: bool, stale: bool)

  predicate Within(rule: Rule, s: State) {
    && |s.uploads| <= rule.n
    && (rule.overlap || s.uploads == map[] || s.measured == map[])
    && (rule.stale || s.measured == map[])
  }

  predicate Follows(rule: Rule, s: State, e: Step) {
    e.TakeStock? ==> rule.overlap || s.uploads == map[]
  }

  ghost predicate Runs(rule: Rule, s: State, es: seq<Step>)
    decreases |es|
  {
    && Within(rule, s)
    && (es == [] || (Enabled(s, es[0]) && Follows(rule, s, es[0]) && Runs(rule, Apply(s, es[0]), es[1..])))
  }

  ghost function After(rule: Rule, s: State, es: seq<Step>): State
    requires Runs(rule, s, es)
    decreases |es|
  {
    if es == [] then s else After(rule, Apply(s, es[0]), es[1..])
  }

  function Init(limit: int): State { State(limit, 0, 0, map[], map[]) }

  /* ---- sums ---- */

  ghost function Sum(m: map<nat, int>): int
    decreases |m|
  {
    if m == map[] then 0
    else
      assert m.Keys != {};
      var id :| id in m;
      m[id] + Sum(m - {id})
  }

  lemma {:induction false} SumSplit(m: map<nat, int>, id: nat)
    requires id in m
    ensures Sum(m) == m[id] + Sum(m - {id})
    decreases |m|
  {
    assert m != map[];
    var first :| first in m && Sum(m) == m[first] + Sum(m - {first});
    if first != id {
      SumSplit(m - {first}, id);
      SumSplit(m - {id}, first);
      assert m - {first} - {id} == m - {id} - {first};
    }
  }

  lemma SumPut(m: map<nat, int>, id: nat, x: int)
    ensures Sum(m[id := x]) == Sum(m) + x - if id in m then m[id] else 0
  {
    SumSplit(m[id := x], id);
    assert m[id := x] - {id} == m - {id};
    if id in m { SumSplit(m, id); } else { assert m - {id} == m; }
  }

  lemma {:induction false} SumBounds(m: map<nat, int>, max: int)
    requires max >= 0 && forall id :: id in m ==> 0 <= m[id] <= max
    ensures 0 <= Sum(m) <= |m| * max
    decreases |m|
  {
    if m != map[] {
      assert m.Keys != {};
      var id :| id in m;
      var rest := m - {id};
      SumSplit(m, id);
      SumBounds(rest, max);
      assert |m| == |rest| + 1 by { assert m.Keys == rest.Keys + {id}; }
      Times(|rest|, |rest|, max);
    } else {
      assert |m| * max == 0;
    }
  }

  lemma {:induction false} SumMonotone(a: map<nat, int>, b: map<nat, int>)
    requires a.Keys == b.Keys && forall id :: id in a ==> a[id] <= b[id]
    ensures Sum(a) <= Sum(b)
    decreases |a|
  {
    if a != map[] {
      assert a.Keys != {};
      var id :| id in a;
      SumSplit(a, id);
      SumSplit(b, id);
      SumMonotone(a - {id}, b - {id});
    } else {
      assert b == map[];
    }
  }

  lemma Times(a: nat, b: nat, x: nat)
    requires a <= b
    ensures a * x <= b * x
    ensures 0 <= a * x && b * x + x == (b + 1) * x
  {}

  lemma PutSums(uploads: map<nat, Upload>, id: nat, u: Upload)
    ensures var was := if id in uploads then uploads[id] else Upload(0, 0);
      && Sum(Rooms(uploads[id := u])) == Sum(Rooms(uploads)) + u.room - was.room
      && Sum(Writtens(uploads[id := u])) == Sum(Writtens(uploads)) + u.written - was.written
  {
    assert Rooms(uploads[id := u]) == Rooms(uploads)[id := u.room];
    assert Writtens(uploads[id := u]) == Writtens(uploads)[id := u.written];
    SumPut(Rooms(uploads), id, u.room);
    SumPut(Writtens(uploads), id, u.written);
  }

  lemma DropSums(uploads: map<nat, Upload>, id: nat)
    requires id in uploads
    ensures Sum(Rooms(uploads - {id})) == Sum(Rooms(uploads)) - uploads[id].room
    ensures Sum(Writtens(uploads - {id})) == Sum(Writtens(uploads)) - uploads[id].written
  {
    assert Rooms(uploads - {id}) == Rooms(uploads) - {id};
    assert Writtens(uploads - {id}) == Writtens(uploads) - {id};
    SumSplit(Rooms(uploads), id);
    SumSplit(Writtens(uploads), id);
  }

  lemma NoSums()
    ensures Sum(Rooms(map[])) == 0 && Sum(Writtens(map[])) == 0
  {
    assert Rooms(map[]) == map[] && Writtens(map[]) == map[];
  }

  /* ---- bounds ---- */

  ghost predicate Fitting(s: State) {
    forall id :: id in s.uploads ==> 0 <= s.uploads[id].written <= s.uploads[id].room <= s.limit
  }

  /** Nothing is measured while uploads go on, so the total covers what is stored; if all uploads used up
      their room, what is stored would not pass the cap, nor the total twice as much. */
  ghost predicate Bounded(s: State, cap: int) {
    && s.limit >= 0 && cap >= 0 && 0 <= s.stored <= s.total && Fitting(s)
    && s.stored + Sum(Rooms(s.uploads)) <= cap
    && s.total + Sum(Rooms(s.uploads)) <= 2 * cap
    && (s.measured != map[] ==> s.uploads == map[])
    && (forall r :: r in s.measured ==> s.stored <= s.measured[r] <= cap)
  }

  lemma WrittenWithin(s: State)
    requires s.limit >= 0 && Fitting(s)
    ensures 0 <= Sum(Writtens(s.uploads)) <= Sum(Rooms(s.uploads)) <= |s.uploads| * s.limit
  {
    SumBounds(Rooms(s.uploads), s.limit);
    SumBounds(Writtens(s.uploads), s.limit);
    SumMonotone(Writtens(s.uploads), Rooms(s.uploads));
    assert Rooms(s.uploads).Keys == s.uploads.Keys;
    assert |Rooms(s.uploads)| == |s.uploads| by { assert |Rooms(s.uploads).Keys| == |s.uploads.Keys|; }
  }

  lemma BeginKeepsBounded(s: State, cap: int, id: nat)
    requires Bounded(s, cap) && id !in s.uploads && Sum(Rooms(s.uploads)) + s.limit <= cap && s.measured == map[]
    ensures Bounded(Apply(s, Begin(id)), cap)
  {
    PutSums(s.uploads, id, Upload(Room(s), 0));
  }

  lemma RoomForOne(s: State, n: nat)
    requires s.limit >= 0 && Fitting(s) && |s.uploads| + 1 <= n
    ensures Sum(Rooms(s.uploads)) + s.limit <= n * s.limit
  {
    WrittenWithin(s);
    Times(|s.uploads|, n - 1, s.limit);
  }

  lemma StockKeepsBounded(s: State, cap: int)
    requires Bounded(s, cap)
    ensures Bounded(Apply(s, TakeStock), cap)
  {
    WrittenWithin(s);
  }

  lemma MeasureKeepsBounded(s: State, cap: int, removal: nat)
    requires Bounded(s, cap) && s.uploads == map[] && removal !in s.measured
    ensures Bounded(Apply(s, Measure(removal)), cap)
  {
    NoSums();
  }

  lemma OtherStepKeepsBounded(s: State, cap: int, e: Step)
    requires Bounded(s, cap) && Enabled(s, e) && (e.Grow? || e.Finish? || e.Abort? || e.Delete? || e.SetTotal?)
    ensures Bounded(Apply(s, e), cap)
  {
    match e
    case Grow(id, size) => PutSums(s.uploads, id, Upload(s.uploads[id].room, s.uploads[id].written + size));
    case Finish(id) => DropSums(s.uploads, id);
    case Abort(id) => DropSums(s.uploads, id);
    case Delete(size) =>
    case SetTotal(removal) => NoSums();
  }

  /** Uploads do not go on between measuring and setting, under this rule. */
  predicate Calm(rule: Rule) { !rule.overlap || !rule.stale }

  lemma StepKeepsBounded(rule: Rule, s: State, e: Step, cap: int)
    requires Calm(rule) && Within(rule, s) && Enabled(s, e) && Within(rule, Apply(s, e))
    requires Bounded(s, cap) && cap == rule.n * s.limit
    ensures Bounded(Apply(s, e), cap)
  {
    match e
    case Begin(id) =>
      assert |Apply(s, e).uploads| == |s.uploads| + 1 && id in Apply(s, e).uploads;
      RoomForOne(s, rule.n);
      BeginKeepsBounded(s, cap, id);
    case Measure(removal) => MeasureKeepsBounded(s, cap, removal);
    case TakeStock => StockKeepsBounded(s, cap);
    case _ => OtherStepKeepsBounded(s, cap, e);
  }

  lemma {:induction false} RunKeepsBounded(rule: Rule, s: State, es: seq<Step>, cap: int)
    requires Calm(rule) && Runs(rule, s, es) && Bounded(s, cap) && cap == rule.n * s.limit
    ensures Bounded(After(rule, s, es), cap) && After(rule, s, es).limit == s.limit
    decreases |es|
  {
    if es != [] {
      StepKeepsBounded(rule, s, es[0], cap);
      RunKeepsBounded(rule, Apply(s, es[0]), es[1..], cap);
    }
  }

  /** With at most n uploads at a time, the files never take more than n times the limit, and the total is
      never more than twice that, wherever stock is taken, as long as measuring and setting the total are
      not torn apart by uploads. */
  lemma TotalWithin(limit: nat, rule: Rule, es: seq<Step>)
    requires Calm(rule) && Runs(rule, Init(limit), es)
    ensures var s := After(rule, Init(limit), es); Disk(s) <= rule.n * limit && s.total <= 2 * (rule.n * limit)
  {
    NoSums();
    Times(rule.n, rule.n, limit);
    RunKeepsBounded(rule, Init(limit), es, rule.n * limit);
    WrittenWithin(After(rule, Init(limit), es));
  }

  /* ---- the limit itself ---- */

  /** With one upload at a time and none while stock is taken, an upload has exactly the room that is left. */
  ghost predicate Tight(s: State) {
    && 0 <= s.stored <= s.total <= s.limit && |s.uploads| <= 1 && Fitting(s)
    && (forall id :: id in s.uploads ==> s.uploads[id].room == s.limit - s.total)
    && (s.measured != map[] ==> s.uploads == map[])
    && (forall r :: r in s.measured ==> s.stored <= s.measured[r] <= s.limit)
  }

  /** There are no uploads, or one at a time and none while stock is taken. */
  predicate OneApart(rule: Rule) { rule.n == 0 || (rule.n == 1 && !rule.overlap) }

  lemma OnlyUpload(uploads: map<nat, Upload>, id: nat)
    requires |uploads| <= 1 && id in uploads
    ensures uploads == map[id := uploads[id]] && Sum(Writtens(uploads)) == uploads[id].written
  {
    assert uploads.Keys == {id} by {
      var rest := uploads.Keys - {id};
      assert uploads.Keys == rest + {id};
      assert |uploads.Keys| == |rest| + 1;
    }
    DropSums(uploads, id);
    assert uploads - {id} == map[];
    NoSums();
  }

  lemma BeginKeepsTight(s: State, id: nat)
    requires Tight(s) && id !in s.uploads && s.measured == map[] && |Apply(s, Begin(id)).uploads| <= 1
    ensures Tight(Apply(s, Begin(id)))
  {
    OnlyUpload(Apply(s, Begin(id)).uploads, id);
  }

  lemma UploadKeepsTight(s: State, e: Step)
    requires Tight(s) && Enabled(s, e) && (e.Grow? || e.Finish? || e.Abort?)
    ensures Tight(Apply(s, e))
  {
    OnlyUpload(s.uploads, e.id);
  }

  lemma RemovalKeepsTight(s: State, e: Step)
    requires Tight(s) && Enabled(s, e) && s.uploads == map[] && (e.Measure? || e.TakeStock?)
    ensures Tight(Apply(s, e))
  {
    NoSums();
  }

  lemma StepKeepsTight(rule: Rule, s: State, e: Step)
    requires OneApart(rule) && Tight(s) && Within(rule, s)
    requires Enabled(s, e) && Follows(rule, s, e) && Within(rule, Apply(s, e))
    ensures Tight(Apply(s, e))
  {
    match e
    case Begin(id) =>
      assert id in Apply(s, e).uploads;
      BeginKeepsTight(s, id);
    case Delete(size) =>
    case SetTotal(removal) =>
    case Measure(removal) => RemovalKeepsTight(s, e);
    case TakeStock => RemovalKeepsTight(s, e);
    case _ => UploadKeepsTight(s, e);
  }

  lemma {:induction false} RunKeepsTight(rule: Rule, s: State, es: seq<Step>)
    requires OneApart(rule) && Tight(s) && Runs(rule, s, es)
    ensures Tight(After(rule, s, es)) && After(rule, s, es).limit == s.limit
    decreases |es|
  {
    if es != [] {
      StepKeepsTight(rule, s, es[0]);
      RunKeepsTight(rule, Apply(s, es[0]), es[1..]);
    }
  }

  /** Neither the total nor the files pass the limit. */
  ghost predicate Kept(limit: nat, rule: Rule, es: seq<Step>) {
    Runs(rule, Init(limit), es) ==>
      After(rule, Init(limit), es).total <= limit && Disk(After(rule, Init(limit), es)) <= limit
  }

  /** The limit is kept in all runs if and only if there are no uploads, or one at a time and none while stock
      is taken. */
  lemma LimitKeptExactly(limit: nat, rule: Rule)
    requires limit > 0
    ensures (forall es :: Kept(limit, rule, es)) <==> OneApart(rule)
  {
    if OneApart(rule) {
      forall es ensures Kept(limit, rule, es) {
        if Runs(rule, Init(limit), es) { KeptIn(limit, rule, es); }
      }
    } else {
      var es := [];
      if rule.n == 1 { es := StockDuringUpload(limit, rule); } else { es := TwoUploads(limit, rule); }
      assert !Kept(limit, rule, es);
    }
  }

  lemma KeptIn(limit: nat, rule: Rule, es: seq<Step>)
    requires OneApart(rule) && Runs(rule, Init(limit), es)
    ensures After(rule, Init(limit), es).total <= limit && Disk(After(rule, Init(limit), es)) <= limit
  {
    NoSums();
    RunKeepsTight(rule, Init(limit), es);
    var s := After(rule, Init(limit), es);
    if id :| id in s.uploads { OnlyUpload(s.uploads, id); } else { assert s.uploads == map[]; }
  }

  /** An upload whose bytes are counted while it is under way counts them again when it is finished. */
  lemma StockDuringUpload(limit: nat, rule: Rule) returns (es: seq<Step>)
    requires rule.n >= 1 && rule.overlap
    ensures Runs(rule, Init(limit), es) && After(rule, Init(limit), es).total == 2 * limit
  {
    NoSums();
    var s0 := Init(limit);
    var s1 := Apply(s0, Begin(0));
    assert s1 == State(limit, 0, 0, map[0 := Upload(limit, 0)], map[]);
    var s2 := Apply(s1, Grow(0, limit));
    assert s2 == State(limit, 0, 0, map[0 := Upload(limit, limit)], map[]);
    OnlyUpload(s2.uploads, 0);
    var s3 := Apply(s2, TakeStock);
    assert s3 == State(limit, limit, 0, map[0 := Upload(limit, limit)], map[]);
    var s4 := Apply(s3, Finish(0));
    assert s4 == State(limit, 2 * limit, limit, map[], map[]);
    es := RunOne(rule, s3, Finish(0), []);
    es := RunOne(rule, s2, TakeStock, es);
    es := RunOne(rule, s1, Grow(0, limit), es);
    es := RunOne(rule, s0, Begin(0), es);
  }

  /** Two uploads that begin together have the same room twice. */
  lemma TwoUploads(limit: nat, rule: Rule) returns (es: seq<Step>)
    requires rule.n >= 2
    ensures Runs(rule, Init(limit), es) && After(rule, Init(limit), es).total == 2 * limit
  {
    var none := Upload(limit, 0);
    var s0 := Init(limit);
    var s1 := Apply(s0, Begin(0));
    assert s1 == State(limit, 0, 0, map[0 := none], map[]);
    var s2 := Apply(s1, Begin(1));
    assert s2 == State(limit, 0, 0, map[0 := none, 1 := none], map[]);
    var s3 := Filled(s2, 0);
    assert s3 == State(limit, limit, limit, map[1 := none], map[]);
    assert Filled(s3, 1) == State(limit, 2 * limit, 2 * limit, map[], map[]);
    es := FillUp(rule, s3, 1, []);
    es := FillUp(rule, s2, 0, es);
    es := RunOne(rule, s1, Begin(1), es);
    es := RunOne(rule, s0, Begin(0), es);
  }

  /** An upload has used up its room and is finished. */
  function Filled(s: State, id: nat): State
    requires id in s.uploads
  {
    var size := s.uploads[id].room;
    s.(total := s.total + size, stored := s.stored + size, uploads := s.uploads - {id})
  }

  lemma FillUp(rule: Rule, s: State, id: nat, rest: seq<Step>) returns (es: seq<Step>)
    requires Within(rule, s) && id in s.uploads && s.uploads[id].written == 0 <= s.uploads[id].room
    requires Runs(rule, Filled(s, id), rest)
    ensures Runs(rule, s, es) && After(rule, s, es) == After(rule, Filled(s, id), rest)
  {
    var grow := Grow(id, s.uploads[id].room);
    var grown := Apply(s, grow);
    assert grown.uploads.Keys == s.uploads.Keys && |grown.uploads| == |grown.uploads.Keys|;
    assert grown.uploads - {id} == s.uploads - {id};
    assert Apply(grown, Finish(id)) == Filled(s, id);
    es := RunOne(rule, grown, Finish(id), rest);
    es := RunOne(rule, s, grow, es);
  }

  lemma RunOne(rule: Rule, s: State, e: Step, rest: seq<Step>) returns (es: seq<Step>)
    requires Within(rule, s) && Enabled(s, e) && Follows(rule, s, e) && Runs(rule, Apply(s, e), rest)
    ensures Runs(rule, s, es) && After(rule, s, es) == After(rule, Apply(s, e), rest)
  {
    es := [e] + rest;
    assert es[1..] == rest;
  }

  /* ---- totals that are set late ---- */

  ghost predicate DiskUpTo(limit: nat, rule: Rule, es: seq<Step>, bound: int) {
    Runs(rule, Init(limit), es) ==> Disk(After(rule, Init(limit), es)) <= bound
  }

  ghost predicate DiskBounded(limit: nat, rule: Rule, bound: int) {
    forall es :: DiskUpTo(limit, rule, es, bound)
  }

  /** The size of the files has a bound at all if and only if there are no uploads, or none goes on between
      measuring and setting the total. */
  lemma DiskBoundedExactly(limit: nat, rule: Rule)
    requires limit > 0
    ensures (exists bound :: DiskBounded(limit, rule, bound)) <==> rule.n == 0 || Calm(rule)
  {
    if rule.n == 0 || Calm(rule) {
      var bound := rule.n * limit + limit;
      Times(rule.n, rule.n, limit);
      forall es ensures DiskUpTo(limit, rule, es, bound) {
        if Runs(rule, Init(limit), es) {
          if rule.n == 0 { KeptIn(limit, rule, es); } else { TotalWithin(limit, rule, es); }
        }
      }
      assert DiskBounded(limit, rule, bound);
    } else {
      forall bound ensures !DiskBounded(limit, rule, bound) {
        var rounds := if bound < 0 then 1 else bound + 1;
        var es := MeasureFirst(limit, rule, rounds, 0);
        ProductAtLeast(rounds, limit);
        assert !DiskUpTo(limit, rule, es, bound);
      }
    }
  }

  function Product(k: nat, x: nat): nat { if k == 0 then 0 else Product(k - 1, x) + x }

  lemma {:induction false} ProductAtLeast(k: nat, x: nat)
    requires x >= 1
    ensures Product(k, x) >= k
  {
    if k > 0 { ProductAtLeast(k - 1, x); }
  }

  function Zeros(k: nat): (m: map<nat, int>)
    ensures forall r: nat :: r in m <==> r < k
  {
    if k == 0 then map[] else Zeros(k - 1)[k - 1 := 0]
  }

  /** The empty cache with k removals that have measured it. */
  function Measured(limit: nat, stored: int, k: nat): State { State(limit, 0, stored, map[], Zeros(k)) }

  /** Removals measure the empty cache; each upload that fills it is then forgotten by one of them. */
  lemma {:induction false} MeasureFirst(limit: nat, rule: Rule, rounds: nat, k: nat) returns (es: seq<Step>)
    requires rule.n >= 1 && rule.overlap && rule.stale && k <= rounds
    ensures Runs(rule, Measured(limit, 0, k), es)
      && Disk(After(rule, Measured(limit, 0, k), es)) == Product(rounds, limit)
    decreases rounds - k
  {
    var s := Measured(limit, 0, k);
    if k == rounds {
      es := FillAndForget(limit, rule, 0, k);
    } else {
      MeasuredOnce(limit, k);
      es := MeasureFirst(limit, rule, rounds, k + 1);
      es := RunOne(rule, s, Measure(k), es);
    }
  }

  lemma MeasuredOnce(limit: nat, k: nat)
    ensures Enabled(Measured(limit, 0, k), Measure(k))
    ensures Apply(Measured(limit, 0, k), Measure(k)) == Measured(limit, 0, k + 1)
  {
    NoSums();
  }

  lemma {:induction false} FillAndForget(limit: nat, rule: Rule, stored: nat, k: nat) returns (es: seq<Step>)
    requires rule.n >= 1 && rule.overlap && rule.stale
    ensures Runs(rule, Measured(limit, stored, k), es)
      && Disk(After(rule, Measured(limit, stored, k), es)) == stored + Product(k, limit)
    decreases k
  {
    var s0 := Measured(limit, stored, k);
    if k == 0 {
      NoSums();
      es := [];
    } else {
      es := FillAndForget(limit, rule, stored + limit, k - 1);
      es := RoundAt(limit, rule, stored, k, es);
    }
  }

  /** One upload that uses up the limit, and a total that is set to what was measured before it. */
  lemma Round(rule: Rule, s: State, removal: nat, rest: seq<Step>) returns (es: seq<Step>)
    requires rule.n >= 1 && rule.overlap && rule.stale
    requires s.limit >= 0 && s.total == 0 && s.uploads == map[] && removal in s.measured && s.measured[removal] == 0
    requires Runs(rule, Forgotten(s, removal), rest)
    ensures Runs(rule, s, es) && After(rule, s, es) == After(rule, Forgotten(s, removal), rest)
  {
    var begun := Apply(s, Begin(0));
    assert begun == s.(uploads := map[0 := Upload(s.limit, 0)]);
    var filled := Filled(begun, 0);
    assert filled == s.(total := s.limit, stored := s.stored + s.limit);
    assert Apply(filled, SetTotal(removal)) == Forgotten(s, removal);
    es := RunOne(rule, filled, SetTotal(removal), rest);
    es := FillUp(rule, begun, 0, es);
    es := RunOne(rule, s, Begin(0), es);
  }

  lemma RoundAt(limit: nat, rule: Rule, stored: nat, k: nat, rest: seq<Step>) returns (es: seq<Step>)
    requires rule.n >= 1 && rule.overlap && rule.stale && k > 0
    requires Runs(rule, Measured(limit, stored + limit, k - 1), rest)
    ensures Runs(rule, Measured(limit, stored, k), es)
    ensures After(rule, Measured(limit, stored, k), es) == After(rule, Measured(limit, stored + limit, k - 1), rest)
  {
    ForgetLast(limit, stored, k);
    es := Round(rule, Measured(limit, stored, k), k - 1, rest);
  }

  function Forgotten(s: State, removal: nat): State {
    s.(stored := s.stored + s.limit, measured := s.measured - {removal})
  }

  lemma ForgetLast(limit: nat, stored: nat, k: nat)
    requires k > 0
    ensures k - 1 in Zeros(k) && Zeros(k)[k - 1] == 0
    ensures Forgotten(Measured(limit, stored, k), k - 1) == Measured(limit, stored + limit, k - 1)
  {
    assert Zeros(k) - {k - 1} == Zeros(k - 1);
  }
}
