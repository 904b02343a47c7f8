/** The records the three screens share. */
module Types {

  datatype Option<T> = None | Some(value: T)

  /** A participant: an id and a display name. */
  datatype Participant = Participant(id: string, name: string)

  /** One group of a grouping run: an id, a display name and its members in
      order. */
  datatype Group = Group(id: string, name: string, members: seq<Participant>)

  /** `ps.map(p => p.name)`. */
  function NamesOf(ps: seq<Participant>): (names: seq<string>)
    ensures |names| == |ps|
    ensures forall i :: 0 <= i < |ps| ==> names[i] == ps[i].name
  {
    seq(|ps|, i requires 0 <= i < |ps| => ps[i].name)
  }

  /** No element occurs twice. */
  predicate NoRepeats<T(==)>(s: seq<T>) {
    forall i, j :: 0 <= i < j < |s| ==> s[i] != s[j]
  }
}
