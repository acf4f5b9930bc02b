/** The durable session record and the pure edits on it
    (internal/engine/session/egress_grant.go, store.go). */
module SessionRecord {
  import opened Wrappers
  import opened ExactEgress

  /** A grant row; its id is opaque, its source and creation time are framed. */
  datatype Grant = Grant(id: nat, dest: Destination)

  /** The overlay bytes a proxy enforces, up to their collision-free digest: the revision comment
      and the destinations in order determine the bytes and back (module Overlay). */
  datatype Digest = Digest(revision: int, overlay: seq<Destination>)

  datatype Generation = Generation(revision: int, hash: Digest)

  datatype Applied = Applied(revision: int, hash: Option<Digest>)

  const NEVER_APPLIED := Applied(0, None)

  datatype Direction = Widening | Narrowing

  datatype Transition = Transition(direction: Direction, revision: int, hash: Digest, grants: seq<Grant>)

  datatype Status = Created | Running | Stopped

  datatype Record = Record(
    status: Status,
    ownerVerified: bool,
    grantable: bool,
    persistent: seq<Destination>,
    grants: seq<Grant>,
    revision: int,
    acks: map<Destination, int>,
    applied: Applied,
    transition: Option<Transition>,
    uncertain: bool,
    version: nat
  )

  // ---------------------------------------------------------------------------------------------
  // Effective destinations and their canonical generation

  function Dests(grants: seq<Grant>): (ds: seq<Destination>)
    ensures |ds| == |grants| && forall i :: 0 <= i < |ds| ==> ds[i] == grants[i].dest
  {
    seq(|grants|, i requires 0 <= i < |grants| => grants[i].dest)
  }

  /** First occurrences, in order. */
  function Dedup(ds: seq<Destination>): (r: seq<Destination>)
  {
    if ds == [] then []
    else
      var front := Dedup(ds[..|ds| - 1]);
      var last := ds[|ds| - 1];
      if last in front then front else front + [last]
  }

  function Effective(persistent: seq<Destination>, grants: seq<Grant>): seq<Destination> {
    Dedup(persistent + Dests(grants))
  }

  /** The destinations a record authorises. */
  function Authority(persistent: seq<Destination>, grants: seq<Grant>): set<Destination> {
    (set d | d in persistent) + (set g | g in grants :: g.dest)
  }

  function GenerationOf(persistent: seq<Destination>, grants: seq<Grant>, revision: int): Generation {
    Generation(revision, Digest(revision, Effective(persistent, grants)))
  }

  /** canonicalEgressGeneration: None when a destination or the revision is not buildable. */
  function CanonicalGeneration(persistent: seq<Destination>, grants: seq<Grant>, revision: int): Option<Generation> {
    if revision >= 0 && forall d :: d in Effective(persistent, grants) ==> Grantable(d)
    then Some(GenerationOf(persistent, grants, revision)) else None
  }

  lemma {:induction false} DedupKeepsSet(ds: seq<Destination>)
    ensures forall d :: d in Dedup(ds) <==> d in ds
  {
    if ds == [] {
    } else {
      DedupKeepsSet(ds[..|ds| - 1]);
      assert ds == ds[..|ds| - 1] + [ds[|ds| - 1]];
    }
  }

  lemma {:induction false} DedupDistinct(ds: seq<Destination>)
    ensures forall i, j :: 0 <= i < j < |Dedup(ds)| ==> Dedup(ds)[i] != Dedup(ds)[j]
  {
    if ds == [] {
    } else {
      DedupDistinct(ds[..|ds| - 1]);
    }
  }

  /** The first occurrence of each destination, in order: the k-th survives exactly when it is new. */
  lemma {:induction false} DedupKeepsFirst(ds: seq<Destination>, d: Destination)
    ensures Dedup(ds + [d]) == if d in ds then Dedup(ds) else Dedup(ds) + [d]
  {
    assert (ds + [d])[..|ds + [d]| - 1] == ds;
    DedupKeepsSet(ds);
  }

  lemma EffectiveMore(persistent: seq<Destination>, front: seq<Grant>, g: Grant)
    ensures Effective(persistent, front + [g])
            == if g.dest in persistent || (exists h :: h in front && h.dest == g.dest) then Effective(persistent, front)
               else Effective(persistent, front) + [g.dest]
  {
    hide Dedup;
    DestsMore(front, g);
    assert persistent + (Dests(front) + [g.dest]) == persistent + Dests(front) + [g.dest];
    DedupKeepsFirst(persistent + Dests(front), g.dest);
    GrantedIn(front, g.dest);
  }

  lemma DestsMore(front: seq<Grant>, g: Grant)
    ensures Dests(front + [g]) == Dests(front) + [g.dest]
  {
  }

  /** The profile's rules come first, as they are, and then the granted destinations that are new. */
  lemma {:induction false} EffectiveStartsWithRules(persistent: seq<Destination>, grants: seq<Grant>)
    requires forall i, j :: 0 <= i < j < |persistent| ==> persistent[i] != persistent[j]
    ensures persistent <= Effective(persistent, grants)
    ensures grants == [] ==> Effective(persistent, grants) == persistent
    decreases |grants|
  {
    if grants == [] {
      DistinctStays(persistent);
      assert persistent + Dests(grants) == persistent;
    } else {
      hide Effective;
      var front, last := grants[..|grants| - 1], grants[|grants| - 1];
      EffectiveStartsWithRules(persistent, front);
      assert grants == front + [last];
      EffectiveMore(persistent, front, last);
    }
  }

  lemma GrantedIn(grants: seq<Grant>, d: Destination)
    ensures d in Dests(grants) <==> exists g :: g in grants && g.dest == d
  {
    if d in Dests(grants) {
      var i :| 0 <= i < |grants| && Dests(grants)[i] == d;
      assert grants[i] in grants;
    }
    if g :| g in grants && g.dest == d {
      var i :| 0 <= i < |grants| && grants[i] == g;
      assert Dests(grants)[i] == d;
    }
  }

  lemma {:induction false} DistinctStays(ds: seq<Destination>)
    requires forall i, j :: 0 <= i < j < |ds| ==> ds[i] != ds[j]
    ensures Dedup(ds) == ds
  {
    if ds == [] {
    } else {
      var front := ds[..|ds| - 1];
      DistinctStays(front);
      assert ds == front + [ds[|ds| - 1]];
    }
  }

  /** The overlay of a record enforces exactly the record's authority. */
  lemma EffectiveIsAuthority(persistent: seq<Destination>, grants: seq<Grant>)
    ensures (set d | d in Effective(persistent, grants)) == Authority(persistent, grants)
  {
    DedupKeepsSet(persistent + Dests(grants));
    forall d | d in Authority(persistent, grants)
      ensures d in Effective(persistent, grants)
    {
      if d !in persistent {
        var g :| g in grants && g.dest == d;
        var i :| 0 <= i < |grants| && grants[i] == g;
        assert Dests(grants)[i] == d;
      }
    }
    forall d | d in Effective(persistent, grants)
      ensures d in Authority(persistent, grants)
    {
      if d !in persistent {
        var i :| 0 <= i < |grants| && Dests(grants)[i] == d;
        assert grants[i] in grants;
      }
    }
  }

  // ---------------------------------------------------------------------------------------------
  // Record validity

  predicate DistinctIds(grants: seq<Grant>) {
    forall i, j :: 0 <= i < j < |grants| ==> grants[i].id != grants[j].id
  }

  predicate ValidGrantList(grants: seq<Grant>) {
    && (forall g :: g in grants ==> Grantable(g.dest))
    && DistinctIds(grants)
    && (forall i, j :: 0 <= i < j < |grants| ==> grants[i].dest != grants[j].dest)
  }

  predicate ValidAuthority(r: Record) {
    && r.revision >= 0 && |r.grants| <= r.revision && ValidGrantList(r.grants)
    && (r.revision != 0 || r.persistent != [] || r.acks != map[] ==> r.grantable)
    && (forall d :: d in r.persistent ==> Grantable(d))
    && (forall i, j :: 0 <= i < j < |r.persistent| ==> r.persistent[i] != r.persistent[j])
    && (forall d :: d in r.acks ==> Grantable(d))
  }

  /** isOneGrantNarrower: candidate is active with exactly one row removed, matched greedily. */
  function NarrowerScan(active: seq<Grant>, candidate: seq<Grant>, removed: bool): bool {
    if active == [] then removed && candidate == []
    else if candidate != [] && active[0] == candidate[0] then NarrowerScan(active[1..], candidate[1..], removed)
    else !removed && NarrowerScan(active[1..], candidate, true)
  }

  predicate IsOneGrantNarrower(active: seq<Grant>, candidate: seq<Grant>) {
    |candidate| + 1 == |active| && NarrowerScan(active, candidate, false)
  }

  /** The generation a widening record had before its last row was appended. */
  function PriorGeneration(r: Record): Option<Generation> {
    if r.grants == [] then None
    else CanonicalGeneration(r.persistent, r.grants[..|r.grants| - 1], r.applied.revision)
  }

  predicate ValidTransition(r: Record, t: Transition, durable: Generation) {
    var candidate := CanonicalGeneration(r.persistent, t.grants, t.revision);
    && r.applied.hash.Some? && t.revision >= 0 && ValidGrantList(t.grants)
    && candidate.Some? && t.hash == candidate.value.hash
    && match t.direction
       case Widening =>
         && t.revision == r.revision && r.applied.revision + 1 == r.revision && t.grants == r.grants
         && PriorGeneration(r).Some? && candidate.value == durable
         && r.applied.hash == Some(PriorGeneration(r).value.hash)
       case Narrowing =>
         && r.applied.revision == r.revision && t.revision == r.revision + 1
         && IsOneGrantNarrower(r.grants, t.grants) && r.applied.hash == Some(durable.hash)
  }

  /** validEgressRuntimeState */
  predicate ValidRuntimeState(r: Record) {
    var durable := CanonicalGeneration(r.persistent, r.grants, r.revision);
    && r.applied.revision >= 0 && (r.applied.hash.None? ==> r.applied.revision == 0)
    && durable.Some?
    && match r.transition
       case None =>
         r.applied.hash.None? || (r.applied.revision == r.revision && r.applied.hash == Some(durable.value.hash))
       case Some(t) => ValidTransition(r, t, durable.value)
  }

  predicate ValidRecord(r: Record) {
    ValidAuthority(r) && ValidRuntimeState(r)
  }

  function RecordGeneration(r: Record): Generation {
    GenerationOf(r.persistent, r.grants, r.revision)
  }

  function RecordAuthority(r: Record): set<Destination> {
    Authority(r.persistent, r.grants)
  }

  lemma ValidAuthorityBuilds(r: Record)
    requires ValidAuthority(r)
    ensures CanonicalGeneration(r.persistent, r.grants, r.revision) == Some(RecordGeneration(r))
  {
    DedupKeepsSet(r.persistent + Dests(r.grants));
  }

  // ---------------------------------------------------------------------------------------------
  // Edits

  datatype GrantResult = Refused | Existing(grant: Grant) | Appended(next: Record, grant: Grant)

  function FindDest(grants: seq<Grant>, d: Destination): Option<Grant> {
    if grants == [] then None
    else if grants[0].dest == d then Some(grants[0]) else FindDest(grants[1..], d)
  }

  /** AppendGrant with the freshly drawn row id. */
  function AppendGrant(r: Record, d: Destination, id: nat): GrantResult {
    if !r.grantable || !Grantable(d) then Refused
    else match FindDest(r.grants, d)
         case Some(g) => Existing(g)
         case None => Appended(r.(grants := r.grants + [Grant(id, d)], revision := r.revision + 1), Grant(id, d))
  }

  function WithoutId(grants: seq<Grant>, id: nat): Option<seq<Grant>> {
    if grants == [] then None
    else if grants[0].id == id then Some(grants[1..])
    else match WithoutId(grants[1..], id)
         case None => None
         case Some(rest) => Some([grants[0]] + rest)
  }

  function RevokeGrant(r: Record, id: nat): Option<Record> {
    if !r.grantable then None
    else match WithoutId(r.grants, id)
         case None => None
         case Some(rest) => Some(r.(grants := rest, revision := r.revision + 1))
  }

  function DismissEgress(r: Record, d: Destination, now: int): Option<Record> {
    if !r.grantable || !Grantable(d) then None else Some(r.(acks := r.acks[d := now]))
  }

  lemma {:induction false} FindDestFinds(grants: seq<Grant>, d: Destination)
    ensures FindDest(grants, d).None? <==> forall g :: g in grants ==> g.dest != d
    ensures FindDest(grants, d).Some? ==> FindDest(grants, d).value in grants && FindDest(grants, d).value.dest == d
  {
    if grants == [] {
    } else {
      FindDestFinds(grants[1..], d);
      assert grants == [grants[0]] + grants[1..];
    }
  }

  lemma {:induction false} WithoutIdFinds(grants: seq<Grant>, id: nat)
    ensures WithoutId(grants, id).None? <==> forall g :: g in grants ==> g.id != id
  {
    if grants == [] {
    } else {
      WithoutIdFinds(grants[1..], id);
      assert grants == [grants[0]] + grants[1..];
    }
  }

  /** Removing by id drops exactly one row, at i, and keeps the order of the rest. */
  lemma {:induction false} WithoutIdCuts(grants: seq<Grant>, id: nat) returns (i: nat)
    requires WithoutId(grants, id).Some?
    ensures i < |grants| && grants[i].id == id
    ensures WithoutId(grants, id).value == grants[..i] + grants[i + 1..]
  {
    if grants[0].id == id {
      i := 0;
    } else {
      var k := WithoutIdCuts(grants[1..], id);
      i := k + 1;
      assert [grants[0]] + (grants[1..][..k] + grants[1..][k + 1..]) == grants[..i] + grants[i + 1..];
    }
  }

  lemma {:induction false} ScanAfterRemoval(rest: seq<Grant>)
    ensures NarrowerScan(rest, rest, true)
  {
    if rest == [] {
    } else {
      ScanAfterRemoval(rest[1..]);
    }
  }

  /** The greedy matcher accepts every single removal from a list with distinct ids. */
  lemma {:induction false} CutIsNarrower(grants: seq<Grant>, i: nat)
    requires i < |grants| && DistinctIds(grants)
    ensures IsOneGrantNarrower(grants, grants[..i] + grants[i + 1..])
    decreases |grants|
  {
    var cut := grants[..i] + grants[i + 1..];
    if i == 0 {
      assert cut == grants[1..];
      ScanAfterRemoval(grants[1..]);
    } else {
      assert cut[1..] == grants[1..][..i - 1] + grants[1..][i..];
      CutIsNarrower(grants[1..], i - 1);
    }
  }

  lemma {:induction false} ScanRemoved(active: seq<Grant>, candidate: seq<Grant>)
    requires NarrowerScan(active, candidate, true)
    ensures candidate == active
  {
    if active == [] {
    } else {
      ScanRemoved(active[1..], candidate[1..]);
      assert active == [active[0]] + active[1..] && candidate == [candidate[0]] + candidate[1..];
    }
  }

  /** candidate is active without its i-th row. */
  predicate WithoutRow(active: seq<Grant>, candidate: seq<Grant>, i: nat) {
    i < |active| && candidate == active[..i] + active[i + 1..]
  }

  lemma WithoutRowTail(active: seq<Grant>, candidate: seq<Grant>, i: nat)
    requires active != [] && candidate != [] && active[0] == candidate[0]
    ensures WithoutRow(active[1..], candidate[1..], i) <==> WithoutRow(active, candidate, i + 1)
  {
    if i + 1 < |active| {
      var cut := active[..i + 1] + active[i + 1 + 1..];
      assert active[1..][..i] + active[1..][i + 1..] == cut[1..];
      assert cut == [active[0]] + cut[1..] && candidate == [candidate[0]] + candidate[1..];
    }
  }

  lemma FirstRowTail(active: seq<Grant>, candidate: seq<Grant>)
    requires active != [] && candidate != [] && active[0] == candidate[0] && WithoutRow(active, candidate, 0)
    ensures WithoutRow(active[1..], candidate[1..], 0)
  {
    assert candidate == active[1..];
    assert active[1..][..0] + active[1..][1..] == candidate[1..];
  }

  /** The greedy matcher is exact: it accepts a list when and only when it is the active one without one row. */
  lemma {:induction false} NarrowerIsOneRowLess(active: seq<Grant>, candidate: seq<Grant>)
    ensures NarrowerScan(active, candidate, false) <==> exists i: nat :: WithoutRow(active, candidate, i)
    decreases |active|
  {
    if active == [] {
    } else if candidate != [] && active[0] == candidate[0] {
      NarrowerIsOneRowLess(active[1..], candidate[1..]);
      hide WithoutRow;
      if i: nat :| WithoutRow(active[1..], candidate[1..], i) {
        WithoutRowTail(active, candidate, i);
      }
      if i: nat :| WithoutRow(active, candidate, i) {
        if i == 0 {
          FirstRowTail(active, candidate);
        } else {
          WithoutRowTail(active, candidate, i - 1);
        }
      }
    } else {
      NarrowerDropsFirst(active, candidate);
    }
  }

  lemma NarrowerDropsFirst(active: seq<Grant>, candidate: seq<Grant>)
    requires active != [] && (candidate == [] || active[0] != candidate[0])
    ensures NarrowerScan(active[1..], candidate, true) <==> exists i: nat :: WithoutRow(active, candidate, i)
  {
    assert active[..0] + active[1..] == active[1..];
    if NarrowerScan(active[1..], candidate, true) {
      ScanRemoved(active[1..], candidate);
      assert WithoutRow(active, candidate, 0);
    }
    if i: nat :| WithoutRow(active, candidate, i) {
      assert i == 0;
      ScanAfterRemoval(active[1..]);
    }
  }

  /** Conversely, whatever the matcher accepts only lost rows. */
  lemma {:induction false} NarrowerIsSubset(active: seq<Grant>, candidate: seq<Grant>, removed: bool)
    requires NarrowerScan(active, candidate, removed)
    ensures forall g :: g in candidate ==> g in active
    decreases |active|
  {
    if active == [] {
    } else {
      if candidate != [] && active[0] == candidate[0] {
        NarrowerIsSubset(active[1..], candidate[1..], removed);
        assert candidate == [candidate[0]] + candidate[1..];
      } else {
        NarrowerIsSubset(active[1..], candidate, true);
      }
    }
  }
}
