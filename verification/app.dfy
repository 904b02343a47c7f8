/** The application shell (App.tsx): `handleUpdateParticipants` turns the
    names the editor reports into the participant records the draw and
    grouping screens work on. */
module App {
  import opened Text
  import opened Types
  import NameList

  /** The id template `${Date.now()}-${index}`: a clock reading and the
      entry's position, both in decimal, joined by a hyphen, so splitting the
      id at the hyphen gives back exactly the two renderings. */
  function ParticipantId(stamp: nat, index: nat): (id: string)
    ensures Split(id, {'-'}) == [Dec(stamp), Dec(index)]
  {
    DecAvoids(stamp, {'-'});
    DecAvoids(index, {'-'});
    SplitAt(Dec(stamp), '-', Dec(index), {'-'});
    assert Dec(stamp) + "-" + Dec(index) == Dec(stamp) + ['-'] + Dec(index);
    Dec(stamp) + "-" + Dec(index)
  }

  /** An id determines both its clock reading and its position, because a
      decimal rendering never contains the hyphen. */
  lemma ParticipantIdInjective(s1: nat, i1: nat, s2: nat, i2: nat)
    requires ParticipantId(s1, i1) == ParticipantId(s2, i2)
    ensures s1 == s2 && i1 == i2
  {
    var id := ParticipantId(s1, i1);
    assert Dec(s1) == Split(id, {'-'})[0] == Dec(s2);
    assert Dec(i1) == Split(id, {'-'})[1] == Dec(i2);
    DecInjective(s1, s2);
    DecInjective(i1, i2);
  }

  /** The `map` step of `handleUpdateParticipants`: entry `i` becomes a
      record whose id carries the clock reading `stamps[i]` and the position
      `i`, and whose name is the trimmed entry. */
  function Mapped(names: seq<string>, stamps: seq<nat>): (ps: seq<Participant>)
    requires |stamps| == |names|
    ensures |ps| == |names|
    ensures forall i :: 0 <= i < |ps| ==> ps[i].name == Trim(names[i]) && IsTrimmed(ps[i].name)
    ensures forall i :: 0 <= i < |ps| ==> Split(ps[i].id, {'-'}) == [Dec(stamps[i]), Dec(i)]
  {
    seq(|names|, i requires 0 <= i < |names| => Participant(ParticipantId(stamps[i], i), Trim(names[i])))
  }

  /** The `filter(p => p.name.length > 0)` step, applied to the records
      from position `i` on. */
  function NonBlankFrom(ps: seq<Participant>, i: nat): (r: seq<Participant>)
    requires i <= |ps|
    ensures |r| <= |ps| - i
    ensures forall j :: 0 <= j < |r| ==> r[j].name != []
    decreases |ps| - i
  {
    if i == |ps| then []
    else (if ps[i].name != [] then [ps[i]] else []) + NonBlankFrom(ps, i + 1)
  }

  /** The positions, from `i` on, of the records the filter keeps. */
  function KeptFrom(ps: seq<Participant>, i: nat): (r: seq<nat>)
    requires i <= |ps|
    ensures |r| == |NonBlankFrom(ps, i)|
    ensures forall j :: 0 <= j < |r| ==> i <= r[j] < |ps|
    decreases |ps| - i
  {
    if i == |ps| then []
    else (if ps[i].name != [] then [i] else []) + KeptFrom(ps, i + 1)
  }

  /** The filter keeps, in order, the records at the kept positions. */
  lemma {:induction false} KeptPicks(ps: seq<Participant>, i: nat)
    requires i <= |ps|
    ensures forall j :: 0 <= j < |KeptFrom(ps, i)| ==> NonBlankFrom(ps, i)[j] == ps[KeptFrom(ps, i)[j]]
    decreases |ps| - i
  {
    if i < |ps| {
      KeptPicks(ps, i + 1);
      var rest := KeptFrom(ps, i + 1);
      var outRest := NonBlankFrom(ps, i + 1);
      var keep := ps[i].name != [];
      var head: seq<nat> := if keep then [i] else [];
      var r := head + rest;
      var out := (if keep then [ps[i]] else []) + outRest;
      assert r == KeptFrom(ps, i);
      assert out == NonBlankFrom(ps, i);
      forall j | 0 <= j < |r| ensures out[j] == ps[r[j]] {
        if j >= |head| {
          assert r[j] == rest[j - |head|];
          assert out[j] == outRest[j - |head|];
        }
      }
    }
  }

  /** The kept positions are strictly increasing. */
  lemma {:induction false} KeptIncreasing(ps: seq<Participant>, i: nat)
    requires i <= |ps|
    ensures forall j1, j2 :: 0 <= j1 < j2 < |KeptFrom(ps, i)| ==> KeptFrom(ps, i)[j1] < KeptFrom(ps, i)[j2]
    decreases |ps| - i
  {
    if i < |ps| {
      KeptIncreasing(ps, i + 1);
      var rest := KeptFrom(ps, i + 1);
      var head: seq<nat> := if ps[i].name != [] then [i] else [];
      var r := head + rest;
      assert r == KeptFrom(ps, i);
      forall j1, j2 | 0 <= j1 < j2 < |r| ensures r[j1] < r[j2] {
        assert r[j2] == rest[j2 - |head|];
        if j1 >= |head| {
          assert r[j1] == rest[j1 - |head|];
        }
      }
    }
  }

  /** A position is kept exactly when the record there has a non-empty
      name. */
  lemma {:induction false} KeptIff(ps: seq<Participant>, i: nat)
    requires i <= |ps|
    ensures forall n :: i <= n < |ps| ==> (n in KeptFrom(ps, i) <==> ps[n].name != [])
    decreases |ps| - i
  {
    if i < |ps| {
      KeptIff(ps, i + 1);
      var rest := KeptFrom(ps, i + 1);
      var head: seq<nat> := if ps[i].name != [] then [i] else [];
      assert KeptFrom(ps, i) == head + rest;
      assert i !in rest;
      forall n | i <= n < |ps| ensures n in head + rest <==> ps[n].name != [] {
        assert n in head + rest <==> n in head || n in rest;
      }
    }
  }

  /** `handleUpdateParticipants(newList)`, with `clock[i]` the value of
      `Date.now()` when entry `i` is mapped. The names are exactly the parse's
      cleaning of the list: trimmed, blanks dropped, order kept. */
  function FormatParticipants(newList: seq<string>, clock: seq<nat>): (r: seq<Participant>)
    requires |clock| == |newList|
    ensures |r| <= |newList|
    ensures NamesOf(r) == NameList.Clean(newList)
    ensures forall j :: 0 <= j < |r| ==> r[j].name != [] && IsTrimmed(r[j].name)
  {
    var ps := Mapped(newList, clock);
    var r := NonBlankFrom(ps, 0);
    FilteredNames(newList, ps, 0);
    assert newList[0..] == newList;
    assert forall j :: 0 <= j < |r| ==> r[j].name == NamesOf(r)[j];
    r
  }

  lemma {:induction false} FilteredNames(names: seq<string>, ps: seq<Participant>, i: nat)
    requires |ps| == |names| && i <= |ps|
    requires forall n :: 0 <= n < |ps| ==> ps[n].name == Trim(names[n])
    ensures NamesOf(NonBlankFrom(ps, i)) == NameList.Clean(names[i..])
    decreases |ps| - i
  {
    if i < |ps| {
      FilteredNames(names, ps, i + 1);
      var t := names[i..];
      assert t[0] == names[i] && t[1..] == names[i + 1..];
      var cleanHead := if Trim(names[i]) == [] then [] else [Trim(names[i])];
      assert NameList.Clean(t) == cleanHead + NameList.Clean(names[i + 1..]);
      var head := if ps[i].name != [] then [ps[i]] else [];
      var rest := NonBlankFrom(ps, i + 1);
      assert NonBlankFrom(ps, i) == head + rest;
      NamesOfAppend(head, rest);
      assert NamesOf(head) == cleanHead;
    } else {
      assert names[i..] == [];
    }
  }

  lemma NamesOfAppend(a: seq<Participant>, b: seq<Participant>)
    ensures NamesOf(a + b) == NamesOf(a) + NamesOf(b)
  {
  }

  /** Each record comes from the input entry at a kept position: its name is
      that entry's trim and its id suffix is that entry's position before
      blanks were filtered out, so suffixes skip the positions of dropped
      blanks. An entry is dropped exactly when its trim is empty. */
  lemma FormattedFrom(newList: seq<string>, clock: seq<nat>)
    requires |clock| == |newList|
    ensures |FormatParticipants(newList, clock)| == |KeptFrom(Mapped(newList, clock), 0)|
    ensures forall j :: 0 <= j < |FormatParticipants(newList, clock)| ==>
      var n := KeptFrom(Mapped(newList, clock), 0)[j];
      n < |newList| &&
      FormatParticipants(newList, clock)[j] == Participant(ParticipantId(clock[n], n), Trim(newList[n]))
    ensures forall j1, j2 :: 0 <= j1 < j2 < |FormatParticipants(newList, clock)| ==>
      KeptFrom(Mapped(newList, clock), 0)[j1] < KeptFrom(Mapped(newList, clock), 0)[j2]
    ensures forall n :: 0 <= n < |newList| ==>
      (n in KeptFrom(Mapped(newList, clock), 0) <==> Trim(newList[n]) != [])
  {
    var ps := Mapped(newList, clock);
    KeptPicks(ps, 0);
    KeptIncreasing(ps, 0);
    KeptIff(ps, 0);
  }

  /** Ids within one call are pairwise distinct, whatever the clock reads,
      because each carries its entry's position. */
  lemma IdsDistinct(newList: seq<string>, clock: seq<nat>)
    requires |clock| == |newList|
    ensures forall j1, j2 :: 0 <= j1 < j2 < |FormatParticipants(newList, clock)| ==>
      FormatParticipants(newList, clock)[j1].id != FormatParticipants(newList, clock)[j2].id
  {
    var r := FormatParticipants(newList, clock);
    var kept := KeptFrom(Mapped(newList, clock), 0);
    FormattedFrom(newList, clock);
    forall j1, j2 | 0 <= j1 < j2 < |r| ensures r[j1].id != r[j2].id {
      if r[j1].id == r[j2].id {
        ParticipantIdInjective(clock[kept[j1]], kept[j1], clock[kept[j2]], kept[j2]);
      }
    }
  }
}
