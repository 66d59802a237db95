/** Limiters, the writer that charges several of them, and the attachment cache that is bounded by one
    (util/limit.go, server/file_cache.go). */
module Limits {

  datatype Kind = Fixed | Rate

  /** Either implementation of the limiter interface. The token bucket behind a rate limiter may grant
      or refuse any positive amount. */
  class Limiter {
    const kind: Kind
    const limit: int
    var value: int

    constructor (kind: Kind, limit: int, value: int)
      ensures this.kind == kind && this.limit == limit && this.value == value
    {
      this.kind := kind;
      this.limit := limit;
      this.value := value;
    }

    method AllowN(n: int) returns (ok: bool)
      modifies this`value
      ensures value == if ok then old(value) + n else old(value)
      ensures kind == Fixed ==> (ok <==> old(value) + n <= limit)
      ensures kind == Rate && ok ==> n > 0
    {
      match kind {
        case Fixed =>
          if value + n > limit {
            return false;
          }
        case Rate =>
          if n <= 0 {
            return false;
          }
          var granted: bool := *;
          if !granted {
            return false;
          }
      }
      value := value + n;
      ok := true;
    }

    function Remainder(): int
      reads this
    {
      if value < limit then limit - value else 0
    }
  }

  /** What charging the first i entries of a list by n adds to one limiter, which may be listed repeatedly. */
  function Charge(ls: seq<Limiter>, i: nat, l: Limiter, n: int): int
    requires i <= |ls|
  {
    if i == 0 then 0 else Charge(ls, i - 1, l, n) + if ls[i - 1] == l then n else 0
  }

  lemma {:induction false} ChargeIsZero(ls: seq<Limiter>, i: nat, l: Limiter, n: int)
    requires n >= 0 && i <= |ls|
    ensures Charge(ls, i, l, n) >= 0
    ensures Charge(ls, i, l, n) == 0 <==> n == 0 || l !in ls[..i]
  {
    if i > 0 {
      ChargeIsZero(ls, i - 1, l, n);
      assert ls[..i] == ls[..i - 1] + [ls[i - 1]];
    }
  }

  lemma {:induction false} ChargeGrows(ls: seq<Limiter>, i: nat, k: nat, l: Limiter, n: int)
    requires n >= 0 && i <= k <= |ls|
    ensures Charge(ls, i, l, n) <= Charge(ls, k, l, n)
    ensures (exists j :: i <= j < k && ls[j] == l) ==> Charge(ls, i, l, n) + n <= Charge(ls, k, l, n)
    decreases k
  {
    if i < k {
      ChargeGrows(ls, i, k - 1, l, n);
    }
  }

  predicate AllFixed(ls: seq<Limiter>) { forall l :: l in ls ==> l.kind == Fixed }

  /* ---- what a write does, as a function of values and bucket answers ---- */

  type Values = map<Limiter, int>

  /** AllowN, given what the bucket of a rate limiter would answer. */
  predicate Allows(l: Limiter, value: int, n: int, grant: bool) {
    match l.kind
    case Fixed => value + n <= l.limit
    case Rate => n > 0 && grant
  }

  ghost predicate Known(ls: seq<Limiter>, v: Values) { forall l :: l in ls ==> l in v }

  /** The limiter at position i allows the charge, all those in front of it having been charged. */
  ghost predicate AllowsAt(ls: seq<Limiter>, v: Values, n: int, i: nat, grant: bool)
    requires i < |ls| && Known(ls, v)
  {
    Allows(ls[i], v[ls[i]] + Charge(ls, i, ls[i], n), n, grant)
  }

  /** Answers that let the first |grants| limiters be charged. */
  ghost predicate Passed(ls: seq<Limiter>, v: Values, n: int, grants: seq<bool>)
    requires Known(ls, v)
  {
    |grants| <= |ls| && forall j :: 0 <= j < |grants| ==> AllowsAt(ls, v, n, j, grants[j])
  }

  /** The limiter at position i is the first to refuse; none is if i is past the end. */
  ghost predicate RefusedAt(ls: seq<Limiter>, v: Values, n: int, grants: seq<bool>, i: nat)
    requires Known(ls, v)
  {
    && i <= |ls| == |grants| && Passed(ls, v, n, grants[..i])
    && (i < |ls| ==> !AllowsAt(ls, v, n, i, grants[i]))
  }

  /** What charging the first i limiters, and no others, leaves. */
  function Charged(ls: seq<Limiter>, v: Values, n: int, i: nat): Values
    requires i <= |ls|
  {
    map l | l in v :: v[l] + Charge(ls, i, l, n)
  }

  /** The same after the fixed limiters have been given back their charge. */
  function Reverted(ls: seq<Limiter>, v: Values, n: int, i: nat): Values
    requires i <= |ls|
  {
    map l | l in v :: if l.kind == Fixed then v[l] else v[l] + Charge(ls, i, l, n)
  }

  /** What a write of n leaves. */
  ghost predicate Outcome(ls: seq<Limiter>, v: Values, n: int, grants: seq<bool>, i: nat, refused: bool, after: Values)
    requires Known(ls, v)
  {
    && RefusedAt(ls, v, n, grants, i) && (refused <==> i < |ls|)
    && after == if refused then Reverted(ls, v, n, i) else Charged(ls, v, n, i)
  }

  lemma PassedOneMore(ls: seq<Limiter>, v: Values, n: int, grants: seq<bool>)
    requires Known(ls, v) && Passed(ls, v, n, grants) && |grants| < |ls| && AllowsAt(ls, v, n, |grants|, true)
    ensures Passed(ls, v, n, grants + [true])
  {}

  lemma StoppedAt(ls: seq<Limiter>, v: Values, n: int, grants: seq<bool>) returns (all: seq<bool>)
    requires Known(ls, v) && Passed(ls, v, n, grants)
    requires |grants| < |ls| ==> !AllowsAt(ls, v, n, |grants|, false)
    ensures RefusedAt(ls, v, n, all, |grants|)
  {
    all := grants + seq(|ls| - |grants|, _ => false);
    assert all[..|grants|] == grants;
  }

  /** Values and answers determine who refuses. */
  lemma RefuserUnique(ls: seq<Limiter>, v: Values, n: int, grants: seq<bool>, i: nat, j: nat)
    requires Known(ls, v) && RefusedAt(ls, v, n, grants, i) && RefusedAt(ls, v, n, grants, j)
    ensures i == j
  {}

  lemma {:induction false} RefuserExists(ls: seq<Limiter>, v: Values, n: int, grants: seq<bool>, from: nat)
      returns (i: nat)
    requires from <= |ls| == |grants| && Known(ls, v) && Passed(ls, v, n, grants[..from])
    ensures RefusedAt(ls, v, n, grants, i)
    decreases |ls| - from
  {
    if from < |ls| && AllowsAt(ls, v, n, from, grants[from]) {
      assert grants[..from + 1] == grants[..from] + [grants[from]];
      i := RefuserExists(ls, v, n, grants, from + 1);
    } else {
      i := from;
    }
  }

  predicate Distinct(ls: seq<Limiter>) { forall i, j :: 0 <= i < j < |ls| ==> ls[i] != ls[j] }

  /** In a list without repetitions each limiter is charged once. */
  lemma {:induction false} ChargeOnce(ls: seq<Limiter>, i: nat, l: Limiter, n: int)
    requires i <= |ls| && Distinct(ls)
    ensures Charge(ls, i, l, n) == if l in ls[..i] then n else 0
  {
    if i > 0 {
      ChargeOnce(ls, i - 1, l, n);
      assert ls[..i] == ls[..i - 1] + [ls[i - 1]];
      assert ls[i - 1] !in ls[..i - 1];
    }
  }

  lemma FixedRefuse(ls: seq<Limiter>, v: Values, n: int, grants: seq<bool>, i: nat)
    requires Known(ls, v) && RefusedAt(ls, v, n, grants, i) && Distinct(ls) && AllFixed(ls)
    ensures i < |ls| <==> exists l :: l in ls && v[l] + n > l.limit
  {
    forall j | 0 <= j < |ls| ensures Charge(ls, j, ls[j], n) == 0 {
      ChargeOnce(ls, j, ls[j], n);
      assert ls[j] !in ls[..j];
    }
    if i < |ls| {
      assert ls[i] in ls && v[ls[i]] + n > ls[i].limit;
    } else {
      forall l | l in ls ensures v[l] + n <= l.limit {
        var j :| 0 <= j < |ls| && ls[j] == l;
        assert AllowsAt(ls, v, n, j, grants[..i][j]);
      }
    }
  }

  /** A write on limiters that are listed once each charges every one of them by its size, or, if they are all
      fixed, changes none; it is refused then exactly if the size is too much for one of them. */
  lemma WriteExactly(ls: seq<Limiter>, v: Values, n: int, grants: seq<bool>, i: nat, refused: bool, after: Values)
    requires Known(ls, v) && Outcome(ls, v, n, grants, i, refused, after) && Distinct(ls)
    ensures after.Keys == v.Keys
    ensures !refused ==> forall l :: l in v ==> after[l] == if l in ls then v[l] + n else v[l]
    ensures refused ==> forall l :: l in v && (l.kind == Fixed || l !in ls) ==> after[l] == v[l]
    ensures AllFixed(ls) ==> (refused <==> exists l :: l in ls && v[l] + n > l.limit)
  {
    forall l | l in v ensures Charge(ls, i, l, n) == if l in ls[..i] then n else 0 { ChargeOnce(ls, i, l, n); }
    assert i == |ls| ==> ls[..i] == ls;
    if AllFixed(ls) { FixedRefuse(ls, v, n, grants, i); }
  }

  /** No rate limiter is listed in front of another entry. */
  predicate RateOnlyLast(ls: seq<Limiter>) { forall i :: 0 <= i < |ls| - 1 ==> ls[i].kind == Fixed }

  /** If a write of n is refused, it leaves every limiter as it was. */
  ghost predicate Restores(ls: seq<Limiter>, n: int, v: Values, grants: seq<bool>, after: Values) {
    forall i: nat :: Known(ls, v) && Outcome(ls, v, n, grants, i, true, after) ==> after == v
  }

  lemma RevertedAll(ls: seq<Limiter>, v: Values, n: int, i: nat)
    requires i <= |ls| && n > 0 && Known(ls, v)
    ensures Reverted(ls, v, n, i) == v <==> AllFixed(ls[..i])
  {
    forall l ensures Charge(ls, i, l, n) == 0 <==> l !in ls[..i] { ChargeIsZero(ls, i, l, n); }
    if l :| l in ls[..i] && l.kind == Rate {
      assert l in ls;
      assert Reverted(ls, v, n, i)[l] != v[l];
    }
  }

  /** For a list of limiters, every refused write of at least one byte leaves all of them as they were,
      whatever their values and the answers of their buckets, if and only if no rate limiter is listed in
      front of another entry. */
  lemma RestoredExactly(ls: seq<Limiter>, n: int)
    requires n > 0
    ensures (forall v, grants, after :: Restores(ls, n, v, grants, after)) <==> RateOnlyLast(ls)
  {
    if RateOnlyLast(ls) {
      forall v, grants, after ensures Restores(ls, n, v, grants, after) {
        forall i: nat | Known(ls, v) && Outcome(ls, v, n, grants, i, true, after) ensures after == v {
          RevertedAll(ls, v, n, i);
        }
      }
    } else {
      var k :| 0 <= k < |ls| - 1 && ls[k].kind == Rate;
      var v, grants := RefusingNext(ls, n, k);
      RevertedAll(ls, v, n, k + 1);
      assert ls[..k + 1][k] == ls[k];
      assert Outcome(ls, v, n, grants, k + 1, true, Reverted(ls, v, n, k + 1));
      assert !Restores(ls, n, v, grants, Reverted(ls, v, n, k + 1));
    }
  }

  /** Values and answers with which the limiter behind position k is the first to refuse. */
  lemma RefusingNext(ls: seq<Limiter>, n: int, k: nat) returns (v: Values, grants: seq<bool>)
    requires n > 0 && k + 1 < |ls|
    ensures Known(ls, v) && RefusedAt(ls, v, n, grants, k + 1)
  {
    var i := k + 1;
    v := map l | l in ls :: l.limit - Charge(ls, i, l, n);
    grants := seq(i, _ => true);
    forall j | 0 <= j < i ensures AllowsAt(ls, v, n, j, grants[j]) {
      ChargeGrows(ls, j, i, ls[j], n);
    }
    grants := StoppedAt(ls, v, n, grants);
  }

  class LimitWriter {
    const limiters: seq<Limiter>
    /** What has reached the underlying writer. */
    var out: string
    var written: int

    constructor (limiters: seq<Limiter>)
      ensures this.limiters == limiters && out == "" && written == 0
    {
      this.limiters := limiters;
      out := "";
      written := 0;
    }

    /** What the limiters hold. */
    ghost function Values(): (v: Values)
      reads limiters
      ensures Known(limiters, v)
    {
      map l | l in limiters :: l.value
    }

    /** Charges all limiters, in order, by the length of p, up to the first that refuses; grants are the
        answers of the buckets. */
    method ChargeAll(p: string) returns (refused: nat, ghost grants: seq<bool>)
      modifies limiters
      ensures RefusedAt(limiters, old(Values()), |p|, grants, refused)
      ensures forall l :: l in limiters ==> l.value == old(l.value) + Charge(limiters, refused, l, |p|)
      ensures forall l :: l in limiters[..refused] && l.kind == Fixed ==> l.value <= l.limit
    {
      refused := 0;
      grants := [];
      ghost var v := Values();
      while refused < |limiters|
        invariant refused <= |limiters| && |grants| == refused && Passed(limiters, v, |p|, grants)
        invariant forall l :: l in limiters ==> l.value == v[l] + Charge(limiters, refused, l, |p|)
        invariant forall l :: l in limiters[..refused] && l.kind == Fixed ==> l.value <= l.limit
      {
        var ok := limiters[refused].AllowN(|p|);
        if !ok {
          grants := StoppedAt(limiters, v, |p|, grants);
          return;
        }
        PassedOneMore(limiters, v, |p|, grants);
        assert limiters[..refused + 1] == limiters[..refused] + [limiters[refused]];
        grants := grants + [true];
        refused := refused + 1;
      }
      grants := StoppedAt(limiters, v, |p|, grants);
    }

    /** Takes the charge back from the first i limiters, last one first; rate limiters keep theirs. */
    method Revert(p: string, i: nat)
      requires i <= |limiters|
      requires forall l :: l in limiters[..i] && l.kind == Fixed ==> l.value <= l.limit
      modifies limiters
      ensures forall l :: l in limiters && l.kind == Fixed ==> l.value == old(l.value) - Charge(limiters, i, l, |p|)
      ensures forall l :: l in limiters && l.kind == Rate ==> l.value == old(l.value)
    {
      var j := i;
      while j > 0
        invariant 0 <= j <= i
        invariant forall l :: l in limiters && l.kind == Fixed ==>
          l.value == old(l.value) - Charge(limiters, i, l, |p|) + Charge(limiters, j, l, |p|)
        invariant forall l :: l in limiters && l.kind == Rate ==> l.value == old(l.value)
        invariant forall l :: l in limiters[..i] && l.kind == Fixed ==> l.value <= l.limit
      {
        j := j - 1;
        assert limiters[j] == limiters[..i][j];
        var reverted := limiters[j].AllowN(-|p|);
      }
    }

    /** A write is refused exactly if some limiter refuses in its turn. It then reaches nothing and leaves every
        fixed limiter as it was; the rate limiters in front of the one that refused keep their charge. An
        accepted write charges all limiters, and passes on what the underlying writer takes. */
    method Write(p: string) returns (n: nat, refused: bool)
      modifies this, limiters
      ensures n <= |p| && written == old(written) + n && out == old(out) + p[..n]
      ensures refused ==> n == 0 && forall l :: l in limiters && l.kind == Fixed ==> l.value == old(l.value)
      ensures exists grants, i: nat :: Outcome(limiters, old(Values()), |p|, grants, i, refused, Values())
      ensures !refused ==> forall l :: l in limiters ==> l.value == old(l.value) + Charge(limiters, |limiters|, l, |p|)
      ensures !refused ==> forall l :: l in limiters && l.kind == Fixed ==> l.value <= l.limit
    {
      ghost var v := Values();
      var i, grants := ChargeAll(p);
      if i < |limiters| {
        Revert(p, i);
        assert Values() == Reverted(limiters, v, |p|, i);
        assert Outcome(limiters, v, |p|, grants, i, true, Values());
        assert p[..0] == "";
        return 0, true;
      }
      assert limiters[..i] == limiters;
      n :| 0 <= n <= |p|;
      out := out + p[..n];
      written := written + n;
      refused := false;
      assert Values() == Charged(limiters, v, |p|, i);
      assert Outcome(limiters, v, |p|, grants, i, false, Values());
    }

    /** io.Copy of the pieces a reader delivers: stops at the first write that fails or falls short.
        Nothing is written beyond what any fixed limiter had left. */
    method Copy(pieces: seq<string>) returns (ok: bool)
      modifies this, limiters
      ensures old(written) <= written
      ensures ok ==> written == old(written) + Length(pieces)
      ensures forall l :: l in limiters && l.kind == Fixed ==>
        l.Remainder() + (written - old(written)) <= old(l.Remainder())
    {
      for k := 0 to |pieces|
        invariant written == old(written) + Length(pieces[..k])
        invariant forall l :: l in limiters && l.kind == Fixed ==>
          l.Remainder() + (written - old(written)) <= old(l.Remainder())
      {
        assert pieces[..k + 1][..k] == pieces[..k];
        label Before:
        var n, refused := Write(pieces[k]);
        if !refused {
          forall l | l in limiters && l.kind == Fixed
            ensures l.Remainder() + n <= old@Before(l.Remainder())
          {
            ChargeIsZero(limiters, |limiters|, l, |pieces[k]|);
            ChargeGrows(limiters, 0, |limiters|, l, |pieces[k]|);
          }
        }
        if refused || n < |pieces[k]| {
          return false;
        }
      }
      assert pieces[..|pieces|] == pieces;
      ok := true;
    }
  }

  function Length(pieces: seq<string>): nat {
    if pieces == [] then 0 else Length(pieces[..|pieces| - 1]) + |pieces[|pieces| - 1]|
  }

  /* ---- the attachment cache ---- */

  predicate ValidFileId(id: string) {
    |id| == 12 && forall i :: 0 <= i < |id| ==>
      id[i] == '-' || id[i] == '_' || 'a' <= id[i] <= 'z' || 'A' <= id[i] <= 'Z' || '0' <= id[i] <= '9'
  }

  /** dirSize: the sizes of all files. */
  ghost function DirSize(files: map<string, nat>): nat
    decreases |files|
  {
    if files == map[] then 0
    else
      assert files.Keys != {};
      var id :| id in files;
      files[id] + DirSize(files - {id})
  }

  lemma {:induction false} DirSizeSplit(files: map<string, nat>, id: string)
    requires id in files
    ensures DirSize(files) == files[id] + DirSize(files - {id})
    decreases |files|
  {
    assert files != map[];
    var first :| first in files && DirSize(files) == files[first] + DirSize(files - {first});
    if first != id {
      DirSizeSplit(files - {first}, id);
      DirSizeSplit(files - {id}, first);
      assert files - {first} - {id} == files - {id} - {first};
    }
  }

  lemma DirSizeWith(files: map<string, nat>, id: string, size: nat)
    requires id !in files
    ensures DirSize(files[id := size]) == DirSize(files) + size
  {
    DirSizeSplit(files[id := size], id);
    assert files[id := size] - {id} == files;
  }

  function Names(ids: seq<string>): set<string> { set i | 0 <= i < |ids| :: ids[i] }

  predicate AllEmpty(files: map<string, nat>, ids: seq<string>) {
    forall i :: 0 <= i < |ids| && ids[i] in files ==> files[ids[i]] == 0
  }

  lemma EmptySnoc(files: map<string, nat>, ids: seq<string>, i: nat)
    requires i < |ids|
    ensures AllEmpty(files, ids[..i + 1])
      <==> AllEmpty(files, ids[..i]) && (ids[i] in files ==> files[ids[i]] == 0)
  {
    assert ids[..i + 1] == ids[..i] + [ids[i]];
  }

  lemma NamesSnoc(ids: seq<string>, i: nat)
    requires i < |ids|
    ensures Names(ids[..i + 1]) == Names(ids[..i]) + {ids[i]}
  {
    forall x ensures x in Names(ids[..i + 1]) <==> x in Names(ids[..i]) || x == ids[i] {
      if x in Names(ids[..i]) { var j :| 0 <= j < i && ids[..i][j] == x; assert ids[..i + 1][j] == x; }
      assert ids[..i + 1][i] == ids[i];
      if x in Names(ids[..i + 1]) {
        var j :| 0 <= j < i + 1 && ids[..i + 1][j] == x;
        if j < i { assert ids[..i][j] == x; }
      }
    }
  }

  datatype WriteResult = Written(size: nat) | InvalidFileId | FileExists | CopyFailed

  class FileCache {
    var files: map<string, nat>
    var totalSizeCurrent: int
    const totalSizeLimit: int

    /** The running total covers the files; it is exact after every successful removal. */
    ghost predicate Valid()
      reads this
    {
      DirSize(files) <= totalSizeCurrent
    }

    constructor (files: map<string, nat>, totalSizeLimit: int)
      ensures Valid() && this.files == files && this.totalSizeLimit == totalSizeLimit
        && totalSizeCurrent == DirSize(files)
    {
      this.files := files;
      this.totalSizeLimit := totalSizeLimit;
      var size := SizeOf(files);
      totalSizeCurrent := size;
    }

    /** What may still be stored: exactly what brings the total to the limit, nothing once it is reached. */
    function Remaining(): (r: int)
      reads this
      ensures r >= 0
      ensures r == 0 <==> totalSizeCurrent >= totalSizeLimit
      ensures r > 0 ==> totalSizeCurrent + r == totalSizeLimit
    {
      if totalSizeLimit - totalSizeCurrent < 0 then 0 else totalSizeLimit - totalSizeCurrent
    }

    /** Stores an attachment as long as the cache and the given limiters have room; readError tells
        whether the reader fails after its last piece. The total never passes the limit, nor
        grows once it has. */
    method Write(id: string, pieces: seq<string>, readError: bool, limiters: seq<Limiter>) returns (r: WriteResult)
      requires Valid()
      modifies this, limiters
      ensures Valid()
      ensures r == InvalidFileId <==> !ValidFileId(id)
      ensures r == FileExists <==> ValidFileId(id) && id in old(files)
      ensures r.Written? ==> !readError
      ensures r.Written? ==> r.size == Length(pieces) && files == old(files)[id := r.size]
      ensures r.Written? ==> totalSizeCurrent == old(totalSizeCurrent) + r.size
      ensures !r.Written? ==> files == old(files) && totalSizeCurrent == old(totalSizeCurrent)
      ensures totalSizeCurrent <= totalSizeLimit || totalSizeCurrent == old(totalSizeCurrent)
      ensures r.Written? ==> forall l :: l in limiters && l.kind == Fixed ==> r.size <= old(l.Remainder())
    {
      if !ValidFileId(id) {
        return InvalidFileId;
      }
      if id in files {
        return FileExists;
      }
      var before := files;
      files := files[id := 0];
      var room := new Limiter(Fixed, Remaining(), 0);
      var all := limiters + [room];
      assert all[|limiters|] == room;
      assert forall l :: l in limiters ==> l in all;
      var writer := new LimitWriter(all);
      var ok := writer.Copy(pieces);
      if !ok || readError {
        files := before;
        return CopyFailed;
      }
      var size := writer.written;
      assert room in all;
      DirSizeWith(before, id, size);
      files := before[id := size];
      totalSizeCurrent := totalSizeCurrent + size;
      r := Written(size);
    }

    /** Deletes files and takes stock. It stops at an invalid id with the earlier ones deleted and the total
        as it was, which is then as far off as before if and only if nothing but empty files was deleted. */
    method Remove(ids: seq<string>) returns (ok: bool)
      requires Valid()
      modifies this
      ensures Valid()
      ensures ok <==> forall i :: 0 <= i < |ids| ==> ValidFileId(ids[i])
      ensures ok ==> totalSizeCurrent == DirSize(files) && files == old(files) - Names(ids)
      ensures !ok ==> totalSizeCurrent == old(totalSizeCurrent) && exists i ::
        0 <= i < |ids| && !ValidFileId(ids[i]) && files == old(files) - Names(ids[..i])
        && (totalSizeCurrent - DirSize(files) == old(totalSizeCurrent - DirSize(files))
          <==> AllEmpty(old(files), ids[..i]))
    {
      for i := 0 to |ids|
        invariant Valid() && totalSizeCurrent == old(totalSizeCurrent)
        invariant forall j :: 0 <= j < i ==> ValidFileId(ids[j])
        invariant files == old(files) - Names(ids[..i])
        invariant DirSize(files) <= DirSize(old(files))
        invariant DirSize(files) == DirSize(old(files)) <==> AllEmpty(old(files), ids[..i])
      {
        if !ValidFileId(ids[i]) {
          return false;
        }
        NamesSnoc(ids, i);
        if ids[i] in files { DirSizeSplit(files, ids[i]); } else { assert files - {ids[i]} == files; }
        EmptySnoc(old(files), ids, i);
        files := files - {ids[i]};
      }
      assert ids[..|ids|] == ids;
      totalSizeCurrent := SizeOf(files);
      ok := true;
    }
  }

  method SizeOf(files: map<string, nat>) returns (size: nat)
    ensures size == DirSize(files)
  {
    var left := files;
    size := 0;
    while left != map[]
      invariant size + DirSize(left) == DirSize(files)
      decreases |left|
    {
      assert left.Keys != {};
      var id :| id in left;
      DirSizeSplit(left, id);
      size := size + left[id];
      left := left - {id};
    }
  }
}
