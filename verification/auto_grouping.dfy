/** The grouping screen (components/AutoGrouping.tsx): the participants, in
    a shuffled order, are cut into consecutive groups of `peoplePerGroup`,
    and the result can be exported as a two-column CSV text. The shuffle
    (`sort` with a random comparator) is supplied by the caller as a
    permutation of the participants. */
module Grouping {
  import opened Text
  import opened Types

  /** The id template `group-${i}`. */
  function GroupId(i: nat): string {
    "group-" + Dec(i)
  }

  /** The name template `第 ${i + 1} 組`: groups are numbered from one. */
  function GroupName(i: nat): string {
    "第 " + Dec(i + 1) + " 組"
  }

  /** An id splits at its hyphen into the word `group` and the position in
      decimal. */
  lemma GroupIdParts(i: nat)
    ensures Split(GroupId(i), {'-'}) == ["group", Dec(i)]
  {
    DecAvoids(i, {'-'});
    assert Avoids("group", {'-'});
    assert Split("group", {'-'}) == ["group"];
    assert Split(Dec(i), {'-'}) == [Dec(i)];
    SplitAt("group", '-', Dec(i), {'-'});
    assert GroupId(i) == "group" + ['-'] + Dec(i);
  }

  /** A name carries the position plus one, in decimal, between the two
      fixed words, and holds no comma and no line feed. */
  lemma GroupNameParts(i: nat)
    ensures |GroupName(i)| >= 5 && GroupName(i)[2..|GroupName(i)| - 2] == Dec(i + 1)
    ensures PlainCell(GroupName(i))
  {
    var d := Dec(i + 1);
    var name := GroupName(i);
    DecAvoids(i + 1, {',', '\n'});
    forall c | 0 <= c < |name| ensures name[c] !in {',', '\n'} {
      if 2 <= c < 2 + |d| {
        assert name[c] == d[c - 2];
      }
    }
  }

  /** Different positions give different ids and different names. */
  lemma GroupLabelsInjective(i: nat, j: nat)
    requires i != j
    ensures GroupId(i) != GroupId(j) && GroupName(i) != GroupName(j)
  {
    if GroupId(i) == GroupId(j) {
      GroupIdParts(i);
      GroupIdParts(j);
      DecInjective(i, j);
    }
    if GroupName(i) == GroupName(j) {
      GroupNameParts(i);
      GroupNameParts(j);
      DecInjective(i + 1, j + 1);
    }
  }

  /** `Math.ceil(n / k)` for a non-zero integer `k`: never negative for a
      positive `k`, never positive for a negative one, and zero people make
      zero groups. */
  function NumGroups(n: nat, k: int): (q: int)
    requires k != 0
    ensures k > 0 ==> q >= 0
    ensures k < 0 ==> q <= 0
    ensures q == 0 <==> n == 0 || (k < 0 && n < -k)
  {
    if k > 0 then (n + k - 1) / k else -(n / -k)
  }

  /** For a positive `k`, `NumGroups(n, k)` is the ceiling of `n / k`: the
      smallest count of groups of `k` that holds `n` people. */
  lemma NumGroupsIsCeiling(n: nat, k: int)
    requires k > 0
    ensures NumGroups(n, k) * k >= n
    ensures (NumGroups(n, k) - 1) * k < n
  {
    var q := NumGroups(n, k);
    var r := (n + k - 1) % k;
    assert q * k + r == n + k - 1;
    assert (q - 1) * k == q * k - k;
  }

  /** Every group of a positive size starts inside the list. */
  lemma GroupStartsInside(n: nat, k: int, j: nat)
    requires k > 0 && j < NumGroups(n, k)
    ensures j * k < n
  {
    NumGroupsIsCeiling(n, k);
    MulMono(j, NumGroups(n, k) - 1, k);
  }

  /** `s.slice(start, end)` for non-negative bounds: both are clamped to the
      length, and a range that is empty after clamping gives `[]`. */
  function Slice(s: seq<Participant>, start: nat, end: nat): (r: seq<Participant>)
    ensures start < end <= |s| ==> r == s[start..end]
    ensures start < |s| <= end ==> r == s[start..]
    ensures end <= start || |s| <= start ==> r == []
  {
    if end <= start || |s| <= start then []
    else if end <= |s| then s[start..end]
    else s[start..]
  }

  /** The result of `performGrouping` for a shuffled order and a group
      size: group `i` holds the slice from `i * k` to `i * k + k`. A
      negative size gives no group at all. */
  function Grouped(shuffled: seq<Participant>, k: int): (gs: seq<Group>)
    requires k != 0
    ensures |gs| == if k > 0 then NumGroups(|shuffled|, k) else 0
  {
    if k < 0 then []
    else
      seq(NumGroups(|shuffled|, k), i requires 0 <= i =>
        Group(GroupId(i), GroupName(i), Slice(shuffled, i * k, i * k + k)))
  }

  /** The `for` loop of `performGrouping`, pushing one group per
      iteration. */
  method ChunkIntoGroups(shuffled: seq<Participant>, k: int) returns (groups: seq<Group>)
    requires k != 0
    ensures groups == Grouped(shuffled, k)
  {
    var numGroups := NumGroups(|shuffled|, k);
    groups := [];
    var i := 0;
    while i < numGroups
      invariant 0 <= i <= |Grouped(shuffled, k)|
      invariant groups == Grouped(shuffled, k)[..i]
    {
      var start := i * k;
      var end := start + k;
      groups := groups + [Group(GroupId(i), GroupName(i), Slice(shuffled, start, end))];
      i := i + 1;
    }
    assert i == |Grouped(shuffled, k)|;
  }

  /** Every member of the groups, group after group. */
  function Members(gs: seq<Group>): (ms: seq<Participant>)
  {
    if gs == [] then []
    else Members(gs[..|gs| - 1]) + gs[|gs| - 1].members
  }

  lemma {:induction false} MembersPrefix(gs: seq<Group>, i: nat)
    requires i < |gs|
    ensures Members(gs[..i + 1]) == Members(gs[..i]) + gs[i].members
  {
    assert gs[..i + 1][..i] == gs[..i];
  }

  /** Reading the groups in order gives back the shuffled list: nobody is
      left out, nobody is placed twice, and the order is kept. */
  lemma GroupedMembers(shuffled: seq<Participant>, k: int)
    requires k > 0
    ensures Members(Grouped(shuffled, k)) == shuffled
  {
    var gs := Grouped(shuffled, k);
    var n := |shuffled|;
    GroupedMembersUpTo(shuffled, k, |gs|);
    assert gs[..|gs|] == gs;
    NumGroupsIsCeiling(n, k);
    assert shuffled[..n] == shuffled;
  }

  /** The first `i` groups hold the first `min(i * k, n)` people. */
  lemma {:induction false} GroupedMembersUpTo(shuffled: seq<Participant>, k: int, i: nat)
    requires k > 0 && i <= |Grouped(shuffled, k)|
    ensures i * k <= |shuffled| ==> Members(Grouped(shuffled, k)[..i]) == shuffled[..i * k]
    ensures i * k > |shuffled| ==> Members(Grouped(shuffled, k)[..i]) == shuffled
  {
    var gs := Grouped(shuffled, k);
    if i == 0 {
      assert gs[..0] == [];
    } else {
      var j := i - 1;
      GroupedMembersUpTo(shuffled, k, j);
      MembersPrefix(gs, j);
      GroupStartsInside(|shuffled|, k, j);
      var start, end := j * k, i * k;
      MulSucc(j, k);
      assert j + 1 == i;
      assert end == start + k;
      LastGroup(shuffled, k, j, start, end);
    }
  }

  /** One more group extends the people covered by the groups before it. */
  lemma LastGroup(shuffled: seq<Participant>, k: int, j: nat, start: nat, end: nat)
    requires k > 0 && j < |Grouped(shuffled, k)|
    requires start == j * k && end == start + k && start < |shuffled|
    ensures end <= |shuffled| ==> shuffled[..start] + Grouped(shuffled, k)[j].members == shuffled[..end]
    ensures end > |shuffled| ==> shuffled[..start] + Grouped(shuffled, k)[j].members == shuffled
  {
    var g := Grouped(shuffled, k)[j];
    assert g.members == Slice(shuffled, start, end);
    if end <= |shuffled| {
      assert shuffled[..end] == shuffled[..start] + shuffled[start..end];
    } else {
      assert shuffled == shuffled[..start] + shuffled[start..];
    }
  }

  lemma MulSucc(j: int, k: int)
    ensures (j + 1) * k == j * k + k
  {
  }

  lemma MulMono(a: int, b: int, k: int)
    requires a <= b && k >= 0
    ensures a * k <= b * k
  {
    assert b * k - a * k == (b - a) * k;
  }

  /** Group sizes: every group but the last holds exactly `k` people, the
      last holds between one and `k`, so no group is empty. */
  lemma GroupSizes(shuffled: seq<Participant>, k: int)
    requires k > 0
    ensures forall i :: 0 <= i < |Grouped(shuffled, k)| - 1 ==> |Grouped(shuffled, k)[i].members| == k
    ensures |Grouped(shuffled, k)| > 0 ==> 1 <= |Grouped(shuffled, k)[|Grouped(shuffled, k)| - 1].members| <= k
  {
    var q := |Grouped(shuffled, k)|;
    forall i | 0 <= i < q - 1 ensures |Grouped(shuffled, k)[i].members| == k {
      GroupSize(shuffled, k, i);
    }
    if q > 0 {
      GroupSize(shuffled, k, q - 1);
    }
  }

  lemma GroupSize(shuffled: seq<Participant>, k: int, i: nat)
    requires k > 0 && i < |Grouped(shuffled, k)|
    ensures i < |Grouped(shuffled, k)| - 1 ==> |Grouped(shuffled, k)[i].members| == k
    ensures 1 <= |Grouped(shuffled, k)[i].members| <= k
  {
    var n, start := |shuffled|, i * k;
    GroupStartsInside(n, k, i);
    assert Grouped(shuffled, k)[i].members == Slice(shuffled, start, start + k);
    if i < |Grouped(shuffled, k)| - 1 {
      GroupStartsInside(n, k, i + 1);
      MulSucc(i, k);
    }
  }

  /** When the shuffle is a permutation of the participants, every
      participant is placed in the groups exactly as often as listed. */
  lemma GroupingIsPartition(participants: seq<Participant>, shuffled: seq<Participant>, k: int)
    requires k > 0 && multiset(shuffled) == multiset(participants)
    ensures multiset(Members(Grouped(shuffled, k))) == multiset(participants)
  {
    GroupedMembers(shuffled, k);
  }

  /** Group `i` is labelled with id `group-i` and name `第 i+1 組`, and
      labels never repeat. */
  lemma GroupLabels(shuffled: seq<Participant>, k: int)
    requires k != 0
    ensures forall i :: 0 <= i < |Grouped(shuffled, k)| ==>
      Grouped(shuffled, k)[i].id == GroupId(i) && Grouped(shuffled, k)[i].name == GroupName(i)
    ensures forall i, j :: 0 <= i < j < |Grouped(shuffled, k)| ==>
      Grouped(shuffled, k)[i].id != Grouped(shuffled, k)[j].id &&
      Grouped(shuffled, k)[i].name != Grouped(shuffled, k)[j].name
  {
    forall i, j | 0 <= i < j < |Grouped(shuffled, k)|
      ensures Grouped(shuffled, k)[i].id != Grouped(shuffled, k)[j].id
      ensures Grouped(shuffled, k)[i].name != Grouped(shuffled, k)[j].name
    {
      GroupLabelsInjective(i, j);
    }
  }

  /** The header row of the export: group, name. */
  const Header: seq<string> := ["組別", "姓名"]

  /** The rows one group contributes: its name beside each member's name. */
  function MemberRows(g: Group): (rows: seq<seq<string>>)
    ensures |rows| == |g.members|
    ensures forall j :: 0 <= j < |rows| ==> |rows[j]| == 2 && rows[j][0] == g.name && rows[j][1] == g.members[j].name
  {
    seq(|g.members|, j requires 0 <= j < |g.members| => [g.name, g.members[j].name])
  }

  /** The data rows of the export, group after group. */
  function GroupRows(gs: seq<Group>): (rows: seq<seq<string>>)
    ensures |rows| == |Members(gs)|
  {
    if gs == [] then []
    else GroupRows(gs[..|gs| - 1]) + MemberRows(gs[|gs| - 1])
  }

  /** The nested `forEach` of `downloadCSV`, pushing one row per member. */
  method BuildRows(groups: seq<Group>) returns (rows: seq<seq<string>>)
    ensures rows == [Header] + GroupRows(groups)
  {
    rows := [Header];
    var gi := 0;
    while gi < |groups|
      invariant 0 <= gi <= |groups|
      invariant rows == [Header] + GroupRows(groups[..gi])
    {
      var group := groups[gi];
      var mi := 0;
      while mi < |group.members|
        invariant 0 <= mi <= |group.members|
        invariant rows == [Header] + GroupRows(groups[..gi]) + MemberRows(group)[..mi]
      {
        rows := rows + [[group.name, group.members[mi].name]];
        assert MemberRows(group)[..mi + 1] == MemberRows(group)[..mi] + [[group.name, group.members[mi].name]];
        mi := mi + 1;
      }
      assert MemberRows(group)[..mi] == MemberRows(group);
      assert groups[..gi + 1][..gi] == groups[..gi];
      gi := gi + 1;
    }
    assert groups[..gi] == groups;
  }

  /** `row` starts with the name of a group that holds `member`. */
  predicate InGroupRow(gs: seq<Group>, row: seq<string>, member: Participant) {
    |row| >= 1 && exists gi :: 0 <= gi < |gs| && member in gs[gi].members && row[0] == gs[gi].name
  }

  /** Row `j` of the data names the `j`-th member and the group that holds
      that member: the second column lists every member, in group order. */
  lemma {:induction false} RowsListMembers(gs: seq<Group>)
    ensures forall j :: 0 <= j < |GroupRows(gs)| ==>
      |GroupRows(gs)[j]| == 2 && GroupRows(gs)[j][1] == Members(gs)[j].name
    ensures forall j :: 0 <= j < |GroupRows(gs)| ==> InGroupRow(gs, GroupRows(gs)[j], Members(gs)[j])
  {
    if gs != [] {
      var p, last := gs[..|gs| - 1], gs[|gs| - 1];
      RowsListMembers(p);
      var rows, ms := GroupRows(gs), Members(gs);
      assert rows == GroupRows(p) + MemberRows(last);
      assert ms == Members(p) + last.members;
      forall j | 0 <= j < |rows|
        ensures |rows[j]| == 2 && rows[j][1] == ms[j].name
        ensures InGroupRow(gs, rows[j], ms[j])
      {
        if j < |GroupRows(p)| {
          assert rows[j] == GroupRows(p)[j] && ms[j] == Members(p)[j];
          var gi :| 0 <= gi < |p| && ms[j] in p[gi].members && rows[j][0] == p[gi].name;
          assert p[gi] == gs[gi];
        } else {
          var m := j - |GroupRows(p)|;
          assert rows[j] == MemberRows(last)[m] && ms[j] == last.members[m];
          assert gs[|gs| - 1] == last;
        }
      }
    }
  }

  /** One CSV line per row, cells joined with commas. */
  function Lines(rows: seq<seq<string>>): (lines: seq<string>)
    ensures |lines| == |rows|
  {
    seq(|rows|, i requires 0 <= i < |rows| => Join(rows[i], ','))
  }

  /** Each line of plain rows holds no line feed and splits at its commas
      into exactly its row's cells. */
  lemma LinesReadBack(rows: seq<seq<string>>)
    requires PlainRows(rows)
    ensures forall i :: 0 <= i < |rows| ==> Avoids(Lines(rows)[i], {'\n'}) && Split(Lines(rows)[i], {','}) == rows[i]
  {
    var lines := Lines(rows);
    forall i | 0 <= i < |rows| ensures Avoids(lines[i], {'\n'}) && Split(lines[i], {','}) == rows[i] {
      forall j | 0 <= j < |rows[i]| ensures Avoids(rows[i][j], {'\n'}) && Avoids(rows[i][j], {','}) {
        assert PlainCell(rows[i][j]);
      }
      JoinAvoids(rows[i], ',', {'\n'});
      SplitJoin(rows[i], ',', {','});
    }
  }

  /** The exported text: a byte-order mark, then the lines joined with line
      feeds. No cell is quoted or escaped. */
  function CsvText(rows: seq<seq<string>>): (csv: string)
    ensures |csv| >= 1 && csv[0] == '\U{FEFF}'
  {
    ['\U{FEFF}'] + Join(Lines(rows), '\n')
  }

  /** How a reader takes the text apart again: drop the byte-order mark,
      split into lines at line feeds and each line into cells at commas. */
  function ReadCsv(csv: string): (rows: seq<seq<string>>)
    requires |csv| >= 1
  {
    var lines := Split(csv[1..], {'\n'});
    seq(|lines|, i requires 0 <= i < |lines| => Split(lines[i], {','}))
  }

  /** A cell the export keeps intact: no comma and no line feed. */
  predicate PlainCell(cell: string) {
    Avoids(cell, {',', '\n'})
  }

  /** Reading an export gives its rows back, provided there is at least one
      row, every row has a cell, and no cell holds a comma or a line feed. */
  lemma CsvRoundTrip(rows: seq<seq<string>>)
    requires |rows| >= 1 && PlainRows(rows)
    ensures ReadCsv(CsvText(rows)) == rows
  {
    var lines := Lines(rows);
    LinesReadBack(rows);
    SplitJoin(lines, '\n', {'\n'});
    assert CsvText(rows)[1..] == Join(lines, '\n');
  }

  /** A cell holding a comma is torn apart on reading: the export of a
      single row with such a name does not read back as that row. */
  lemma CommaSplitsCell(groupName: string, a: string, b: string)
    requires PlainCell(groupName) && PlainCell(a) && PlainCell(b)
    ensures ReadCsv(CsvText([[groupName, a + "," + b]])) == [[groupName, a, b]]
  {
    var row := [groupName, a, b];
    assert Join([groupName, a + "," + b], ',') == Join(row, ',') by {
      assert Join([a + "," + b], ',') == a + "," + b;
      assert Join([b], ',') == b;
      assert Join(row[1..], ',') == a + [','] + Join([b], ',');
      assert [groupName, a, b][1..] == [a, b];
      assert (a + "," + b) == a + [','] + b;
    }
    assert Lines([[groupName, a + "," + b]]) == Lines([row]);
    CsvRoundTrip([row]);
  }

  /** Every cell of `rows` is plain and every row has a cell. */
  predicate PlainRows(rows: seq<seq<string>>) {
    (forall i :: 0 <= i < |rows| ==> |rows[i]| >= 1) &&
    forall i, j :: 0 <= i < |rows| && 0 <= j < |rows[i]| ==> PlainCell(rows[i][j])
  }

  /** The data rows are plain when every group name and member name is. */
  lemma DataRowsPlain(gs: seq<Group>)
    requires forall gi :: 0 <= gi < |gs| ==> PlainCell(gs[gi].name)
    requires forall j :: 0 <= j < |Members(gs)| ==> PlainCell(Members(gs)[j].name)
    ensures PlainRows(GroupRows(gs))
  {
    var data := GroupRows(gs);
    RowsListMembers(gs);
    forall i, j | 0 <= i < |data| && 0 <= j < |data[i]| ensures PlainCell(data[i][j]) {
      if j == 0 {
        assert InGroupRow(gs, data[i], Members(gs)[i]);
        var gi :| 0 <= gi < |gs| && Members(gs)[i] in gs[gi].members && data[i][0] == gs[gi].name;
      }
    }
  }

  /** The header is plain, so a header over plain data rows is plain. */
  lemma WithHeaderPlain(data: seq<seq<string>>)
    requires PlainRows(data)
    ensures PlainRows([Header] + data)
  {
    var rows := [Header] + data;
    assert PlainCell("組別") && PlainCell("姓名");
    forall i | 0 < i < |rows| ensures rows[i] == data[i - 1] {
    }
  }

  /** The data rows of a grouping list each member once, in the shuffled
      order: row `j` carries the name of the `j`-th person. */
  lemma ExportListsEveryone(shuffled: seq<Participant>, k: int)
    requires k > 0
    ensures |GroupRows(Grouped(shuffled, k))| == |shuffled|
    ensures forall j :: 0 <= j < |shuffled| ==>
      |GroupRows(Grouped(shuffled, k))[j]| == 2 && GroupRows(Grouped(shuffled, k))[j][1] == shuffled[j].name
  {
    var gs := Grouped(shuffled, k);
    GroupedMembers(shuffled, k);
    RowsListMembers(gs);
    var rows, ms := GroupRows(gs), Members(gs);
    assert |rows| == |ms| == |shuffled|;
    forall j | 0 <= j < |shuffled| ensures |rows[j]| == 2 && rows[j][1] == shuffled[j].name {
      assert rows[j][1] == ms[j].name;
    }
  }

  /** The export of a grouping reads back as the rows it was made from,
      provided no participant name holds a comma or a line feed (names that
      come out of the name-list parse never do). */
  lemma ExportReadsBack(shuffled: seq<Participant>, k: int)
    requires k > 0
    requires forall j :: 0 <= j < |shuffled| ==> PlainCell(shuffled[j].name)
    ensures ReadCsv(CsvText([Header] + GroupRows(Grouped(shuffled, k)))) == [Header] + GroupRows(Grouped(shuffled, k))
  {
    var gs := Grouped(shuffled, k);
    GroupedMembers(shuffled, k);
    GroupLabels(shuffled, k);
    forall gi | 0 <= gi < |gs| ensures PlainCell(gs[gi].name) {
      GroupNameParts(gi);
    }
    DataRowsPlain(gs);
    WithHeaderPlain(GroupRows(gs));
    CsvRoundTrip([Header] + GroupRows(gs));
  }

  /** `parseInt(value) || 2`, with `None` for `NaN`: an unreadable or zero
      entry becomes 2; any other number, negative ones included, is kept. */
  function PeoplePerGroupInput(parsed: Option<int>): (k: int)
    ensures k != 0
    ensures parsed.Some? && parsed.value != 0 ==> k == parsed.value
    ensures parsed.None? || parsed.value == 0 ==> k == 2
  {
    if parsed.None? || parsed.value == 0 then 2 else parsed.value
  }

  /** A negative group size, which the input field lets through, yields no
      groups at all, however many participants there are. */
  lemma NegativeSizeGivesNoGroups(shuffled: seq<Participant>, k: int)
    requires k < 0
    ensures Grouped(shuffled, k) == [] && NumGroups(|shuffled|, k) <= 0
  {
  }

  /** The component's state: the participants passed in, the groups and the
      group size. */
  class AutoGrouping {
    var participants: seq<Participant>
    var groups: seq<Group>
    var peoplePerGroup: int

    /** `peoplePerGroup` is never zero: it starts at 3 and the setter maps
        zero to 2, so `Math.ceil(n / peoplePerGroup)` is always a number. */
    ghost predicate Valid()
      reads this
    {
      peoplePerGroup != 0
    }

    constructor (participants: seq<Participant>)
      ensures Valid()
      ensures this.participants == participants && groups == [] && peoplePerGroup == 3
    {
      this.participants := participants;
      groups := [];
      peoplePerGroup := 3;
    }

    /** New participants from the parent; the groups already formed stay as
        they are until the next grouping. */
    method SetParticipants(ps: seq<Participant>)
      requires Valid()
      modifies this`participants
      ensures Valid()
      ensures participants == ps
    {
      participants := ps;
    }

    /** The group-size input's change handler. */
    method SetPeoplePerGroup(parsed: Option<int>)
      requires Valid()
      modifies this`peoplePerGroup
      ensures Valid()
      ensures peoplePerGroup == PeoplePerGroupInput(parsed)
    {
      peoplePerGroup := PeoplePerGroupInput(parsed);
    }

    /** `performGrouping`, with `shuffled` the order the random sort
        produced. With no participants nothing happens; otherwise the groups
        are replaced, and with a positive size every participant lands in
        exactly one group. */
    method PerformGrouping(shuffled: seq<Participant>)
      requires Valid()
      requires multiset(shuffled) == multiset(participants)
      modifies this`groups
      ensures Valid()
      ensures |participants| == 0 ==> groups == old(groups)
      ensures |participants| > 0 ==> groups == Grouped(shuffled, peoplePerGroup)
      ensures |participants| > 0 && peoplePerGroup > 0 ==>
        multiset(Members(groups)) == multiset(participants) && groups != []
    {
      if |participants| == 0 {
        return;
      }
      groups := ChunkIntoGroups(shuffled, peoplePerGroup);
      if peoplePerGroup > 0 {
        GroupingIsPartition(participants, shuffled, peoplePerGroup);
        assert |shuffled| == |participants| by {
          assert |multiset(shuffled)| == |multiset(participants)|;
        }
      }
    }

    /** `downloadCSV`: nothing when there are no groups; otherwise the text
        of the file, one row per member after the header. */
    method DownloadCsv() returns (csv: Option<string>)
      ensures csv.None? <==> groups == []
      ensures csv.Some? ==> csv.value == CsvText([Header] + GroupRows(groups))
    {
      if |groups| == 0 {
        return None;
      }
      var rows := BuildRows(groups);
      csv := Some(CsvText(rows));
    }
  }
}
