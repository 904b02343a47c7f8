/** The lucky-draw screen (components/LuckyDraw.tsx): a pool of remaining
    candidates, a history of winners, and a draw that samples the pool with
    or without replacement. Every `Math.random()` value the source reads is
    supplied by the caller as a real in [0, 1). */
module Draw {
  import opened Types

  /** Values as `Math.random()` returns them. */
  predicate IsRandom(rs: seq<real>) {
    forall i :: 0 <= i < |rs| ==> 0.0 <= rs[i] < 1.0
  }

  /** `Math.floor(r * n)`: a uniform value scaled to an index of a list of
      length `n`. */
  function Pick(r: real, n: nat): (idx: nat)
    requires 0.0 <= r < 1.0 && n > 0
    ensures idx < n
  {
    assert 0.0 <= r * n as real < n as real by {
      assert (1.0 - r) * n as real > 0.0;
    }
    (r * n as real).Floor
  }

  /** `available.splice(idx, 1)`: the list without its element at `idx`. */
  function Remove(s: seq<Participant>, idx: nat): (r: seq<Participant>)
    requires idx < |s|
    ensures |r| == |s| - 1
  {
    s[..idx] + s[idx + 1..]
  }

  /** Removing an element takes exactly one occurrence of it out of the
      list. */
  lemma RemoveMultiset(s: seq<Participant>, idx: nat)
    requires idx < |s|
    ensures multiset(Remove(s, idx)) + multiset{s[idx]} == multiset(s)
  {
    assert s == s[..idx] + [s[idx]] + s[idx + 1..];
  }

  /** Where a draw stands after some iterations: the winners drawn so far,
      in order, and what is left of the copy of the pool. */
  datatype DrawResult = DrawResult(drawn: seq<Participant>, left: seq<Participant>)

  /** One iteration of the loop of `finishDraw` on the state `d`, reading
      the random value `r`: on an empty copy it draws nothing; otherwise it
      picks `left[Pick(r, |left|)]` and, without repeat, removes the pick. */
  function Step(d: DrawResult, r: real, allowRepeat: bool): (e: DrawResult)
    requires 0.0 <= r < 1.0
    ensures |d.left| == 0 ==> e == d
    ensures |d.left| > 0 ==> |e.drawn| == |d.drawn| + 1 && e.drawn[..|d.drawn|] == d.drawn
                             && e.drawn[|d.drawn|] in d.left
    ensures allowRepeat ==> e.left == d.left
    ensures !allowRepeat && |d.left| > 0 ==> |e.left| == |d.left| - 1
  {
    if |d.left| == 0 then d
    else
      var idx := Pick(r, |d.left|);
      DrawResult(d.drawn + [d.left[idx]], if allowRepeat then d.left else Remove(d.left, idx))
  }

  /** The winners and the rest of the copy together are exactly `pool`. */
  predicate Conserves(d: DrawResult, pool: seq<Participant>) {
    multiset(d.drawn) + multiset(d.left) == multiset(pool)
  }

  /** Without repeat, an iteration moves its pick from the copy to the
      winners and so keeps the two together equal to the pool. */
  lemma StepMultiset(d: DrawResult, r: real, pool: seq<Participant>)
    requires 0.0 <= r < 1.0 && Conserves(d, pool)
    ensures Conserves(Step(d, r, false), pool)
  {
    if |d.left| > 0 {
      var idx := Pick(r, |d.left|);
      assert multiset(d.drawn + [d.left[idx]]) == multiset(d.drawn) + multiset{d.left[idx]};
      RemoveMultiset(d.left, idx);
    }
  }

  /** The loop of `finishDraw` after its first `steps` iterations, where
      iteration `i` reads the random value `rs[i]`. Once the copy is empty
      every further iteration draws nothing, which is what the source's
      `break` relies on. */
  function DrawAfter(candidates: seq<Participant>, rs: seq<real>, steps: nat, allowRepeat: bool): (d: DrawResult)
    requires IsRandom(rs) && steps <= |rs|
    ensures |d.drawn| <= steps
    ensures |d.drawn| < steps ==> d.left == []
    decreases steps
  {
    if steps == 0 then DrawResult([], candidates)
    else Step(DrawAfter(candidates, rs, steps - 1, allowRepeat), rs[steps - 1], allowRepeat)
  }

  function Min(a: int, b: int): int {
    if a <= b then a else b
  }

  /** Without repeat, every iteration on a non-empty copy moves one
      participant from the copy to the winners, so the draw yields
      `min(steps, |candidates|)` winners. */
  lemma {:induction false} DrawSizes(candidates: seq<Participant>, rs: seq<real>, steps: nat)
    requires IsRandom(rs) && steps <= |rs|
    ensures |DrawAfter(candidates, rs, steps, false).drawn| == Min(steps, |candidates|)
    ensures |DrawAfter(candidates, rs, steps, false).drawn| + |DrawAfter(candidates, rs, steps, false).left| == |candidates|
  {
    if steps > 0 {
      DrawSizes(candidates, rs, steps - 1);
    }
  }

  /** Without repeat, the winners and the rest of the copy together are
      the pool: nobody is invented and nobody is lost. */
  lemma {:induction false} DrawMultiset(candidates: seq<Participant>, rs: seq<real>, steps: nat)
    requires IsRandom(rs) && steps <= |rs|
    ensures Conserves(DrawAfter(candidates, rs, steps, false), candidates)
  {
    if steps > 0 {
      DrawMultiset(candidates, rs, steps - 1);
      StepMultiset(DrawAfter(candidates, rs, steps - 1, false), rs[steps - 1], candidates);
    }
  }

  /** With repeat the pool is left as it was, every winner comes from it,
      and a non-empty pool yields exactly one winner per iteration. */
  lemma {:induction false} DrawWithRepeat(candidates: seq<Participant>, rs: seq<real>, steps: nat)
    requires IsRandom(rs) && steps <= |rs|
    ensures DrawAfter(candidates, rs, steps, true).left == candidates
    ensures |DrawAfter(candidates, rs, steps, true).drawn| == if |candidates| == 0 then 0 else steps
    ensures forall j :: 0 <= j < |DrawAfter(candidates, rs, steps, true).drawn| ==>
      DrawAfter(candidates, rs, steps, true).drawn[j] in candidates
  {
    if steps > 0 {
      DrawWithRepeat(candidates, rs, steps - 1);
    }
  }

  /** Once the copy is empty, further iterations change nothing: this is
      why the source may break out of the loop. */
  lemma {:induction false} DrawStaysEmpty(candidates: seq<Participant>, rs: seq<real>, i: nat, steps: nat, allowRepeat: bool)
    requires IsRandom(rs) && i <= steps <= |rs|
    requires |DrawAfter(candidates, rs, i, allowRepeat).left| == 0
    ensures DrawAfter(candidates, rs, steps, allowRepeat) == DrawAfter(candidates, rs, i, allowRepeat)
    decreases steps - i
  {
    if i < steps {
      DrawStaysEmpty(candidates, rs, i, steps - 1, allowRepeat);
    }
  }

  /** In a list without repetitions nothing occurs twice. */
  lemma {:induction false} DistinctCount(s: seq<Participant>, x: Participant)
    requires NoRepeats(s)
    ensures multiset(s)[x] <= 1
  {
    if s != [] {
      DistinctCount(s[1..], x);
      assert s == [s[0]] + s[1..];
      if s[0] == x {
        assert x !in s[1..];
      }
    }
  }

  /** Without repeat, a pool of distinct participants yields distinct
      winners. */
  lemma WinnersDistinct(candidates: seq<Participant>, rs: seq<real>, steps: nat)
    requires IsRandom(rs) && steps <= |rs|
    requires NoRepeats(candidates)
    ensures NoRepeats(DrawAfter(candidates, rs, steps, false).drawn)
  {
    var d := DrawAfter(candidates, rs, steps, false);
    var ws := d.drawn;
    DrawMultiset(candidates, rs, steps);
    if !NoRepeats(ws) {
      var i, j :| 0 <= i < j < |ws| && ws[i] == ws[j];
      var x := ws[i];
      assert ws == ws[..i] + [x] + ws[i + 1..];
      assert ws[i + 1..][j - i - 1] == x;
      assert multiset(ws)[x] >= 2;
      assert multiset(candidates) == multiset(ws) + multiset(d.left);
      DistinctCount(candidates, x);
    }
  }

  /** What a draw without repeat leaves of a pool drawn from `participants`
      is still drawn from `participants`. */
  lemma LeftoverWithin(pool: seq<Participant>, participants: seq<Participant>, rs: seq<real>, steps: nat)
    requires IsRandom(rs) && steps <= |rs|
    requires multiset(pool) <= multiset(participants)
    ensures multiset(DrawAfter(pool, rs, steps, false).left) <= multiset(participants)
  {
    DrawMultiset(pool, rs, steps);
    var d := DrawAfter(pool, rs, steps, false);
    assert multiset(d.left) <= multiset(pool);
  }

  /** The names a preview frame shows: `drawCount` picks from the
      candidates, each with its own random value. */
  function PreviewNames(candidates: seq<Participant>, rs: seq<real>): (names: seq<string>)
    requires |candidates| > 0 && IsRandom(rs)
    ensures |names| == |rs|
    ensures forall i :: 0 <= i < |names| ==> names[i] in NamesOf(candidates)
  {
    NamesListed(candidates);
    seq(|rs|, i requires 0 <= i < |rs| => candidates[Pick(rs[i], |candidates|)].name)
  }

  lemma NamesListed(ps: seq<Participant>)
    ensures forall k :: 0 <= k < |ps| ==> ps[k].name in NamesOf(ps)
  {
    forall k | 0 <= k < |ps| ensures ps[k].name in NamesOf(ps) {
      assert NamesOf(ps)[k] == ps[k].name;
    }
  }

  /** `Math.max(1, parseInt(value) || 1)`, with `None` for `NaN`: the draw
      count the input field stores. */
  function ClampDrawCount(parsed: Option<int>): (n: int)
    ensures n >= 1
    ensures parsed.Some? && parsed.value >= 1 ==> n == parsed.value
    ensures parsed.None? || parsed.value < 1 ==> n == 1
  {
    var v := if parsed.None? || parsed.value == 0 then 1 else parsed.value;
    if v < 1 then 1 else v
  }

  /** The `for` loop of `finishDraw` over a copy of the pool: iteration `i`
      reads `rs[i]`, the loop stops once the copy is empty, and each
      iteration picks from the copy and, without repeat, splices the pick out
      of it. */
  method DrawWinners(candidates: seq<Participant>, rs: seq<real>, count: nat, allowRepeat: bool)
    returns (newWinners: seq<Participant>, available: seq<Participant>)
    requires IsRandom(rs) && count <= |rs|
    ensures DrawResult(newWinners, available) == DrawAfter(candidates, rs, count, allowRepeat)
  {
    available := candidates;
    newWinners := [];
    var i := 0;
    while i < count
      invariant 0 <= i <= count
      invariant DrawResult(newWinners, available) == DrawAfter(candidates, rs, i, allowRepeat)
    {
      if |available| == 0 {
        DrawStaysEmpty(candidates, rs, i, count, allowRepeat);
        break;
      }
      var idx := Pick(rs[i], |available|);
      newWinners := newWinners + [available[idx]];
      if !allowRepeat {
        available := Remove(available, idx);
      }
      i := i + 1;
    }
  }

  /** How `startDraw` responds: it ignores the click, it warns that there
      are too few candidates, or it starts the animation. */
  datatype StartOutcome = Ignored | InsufficientCandidates | Started

  /** The component's state. `participants` is the property the parent
      passes in; the other fields are its `useState` hooks. */
  class LuckyDraw {
    var participants: seq<Participant>
    var winners: seq<Participant>
    var drawing: bool
    var allowRepeat: bool
    var drawCount: int
    var displayNames: seq<string>
    var candidates: seq<Participant>

    /** The draw count is at least one, and the pool holds only current
        participants (no more copies of one than the list has). */
    ghost predicate Valid()
      reads this
    {
      drawCount >= 1 && multiset(candidates) <= multiset(participants)
    }

    /** The initial state once the participants effect has run. */
    constructor (participants: seq<Participant>)
      ensures Valid()
      ensures this.participants == participants && candidates == participants
      ensures winners == [] && !drawing && !allowRepeat && drawCount == 1 && displayNames == []
    {
      this.participants := participants;
      winners := [];
      drawing := false;
      allowRepeat := false;
      drawCount := 1;
      displayNames := [];
      candidates := participants;
    }

    /** The effect on `[participants]`: a new list replaces the pool; the
        history and the display are kept. */
    method SyncParticipants(ps: seq<Participant>)
      requires Valid()
      modifies this`participants, this`candidates
      ensures Valid()
      ensures participants == ps && candidates == ps
    {
      participants := ps;
      candidates := ps;
    }

    /** The draw-count input's change handler. */
    method SetDrawCount(parsed: Option<int>)
      requires Valid()
      modifies this`drawCount
      ensures Valid()
      ensures drawCount == ClampDrawCount(parsed)
    {
      drawCount := ClampDrawCount(parsed);
    }

    /** The repeat switch. */
    method ToggleRepeat()
      requires Valid()
      modifies this`allowRepeat
      ensures Valid()
      ensures allowRepeat == !old(allowRepeat)
    {
      allowRepeat := !allowRepeat;
    }

    /** `startDraw`: its guards, and the switch into the drawing state. Only
        `drawing` can change, and only when the draw starts. */
    method StartDraw() returns (outcome: StartOutcome)
      requires Valid()
      modifies this`drawing
      ensures Valid()
      ensures old(drawing) || |candidates| == 0 ==> outcome == Ignored
      ensures !old(drawing) && |candidates| > 0 && !allowRepeat && |candidates| < drawCount
        ==> outcome == InsufficientCandidates
      ensures outcome == Started <==>
        !old(drawing) && |candidates| > 0 && (allowRepeat || drawCount <= |candidates|)
      ensures drawing == (old(drawing) || outcome == Started)
    {
      if drawing || |candidates| == 0 {
        return Ignored;
      }
      if !allowRepeat && |candidates| < drawCount {
        return InsufficientCandidates;
      }
      drawing := true;
      outcome := Started;
    }

    /** One animation frame: `drawCount` random candidates' names are shown;
        nothing but the display changes. */
    method PreviewFrame(rs: seq<real>)
      requires Valid() && |candidates| > 0
      requires IsRandom(rs) && |rs| == drawCount
      modifies this`displayNames
      ensures Valid()
      ensures displayNames == PreviewNames(candidates, rs)
      ensures |displayNames| == drawCount
    {
      displayNames := PreviewNames(candidates, rs);
    }

    /** `finishDraw`: `rs[i]` is the random value iteration `i` reads. The
        new winners go in front of the history, the pool loses them unless
        repeats are allowed, the drawing ends and the display shows the new
        winners. */
    method FinishDraw(rs: seq<real>)
      requires Valid()
      requires IsRandom(rs) && |rs| >= drawCount
      modifies this`winners, this`candidates, this`drawing, this`displayNames
      ensures Valid()
      ensures winners == DrawAfter(old(candidates), rs, drawCount, allowRepeat).drawn + old(winners)
      ensures candidates == if allowRepeat then old(candidates)
                            else DrawAfter(old(candidates), rs, drawCount, false).left
      ensures !drawing
      ensures displayNames == NamesOf(DrawAfter(old(candidates), rs, drawCount, allowRepeat).drawn)
    {
      var newWinners, available := DrawWinners(candidates, rs, drawCount, allowRepeat);
      var remaining := candidates;
      if !allowRepeat {
        LeftoverWithin(candidates, participants, rs, drawCount);
        remaining := available;
      }
      Commit(newWinners, remaining);
    }

    /** The four state updates that close `finishDraw`: the new winners go
        in front of the history, the pool becomes `remaining`, the drawing
        ends and the display shows the new winners' names. */
    method Commit(newWinners: seq<Participant>, remaining: seq<Participant>)
      requires drawCount >= 1 && multiset(remaining) <= multiset(participants)
      modifies this`winners, this`candidates, this`drawing, this`displayNames
      ensures Valid()
      ensures winners == newWinners + old(winners) && candidates == remaining
      ensures !drawing && displayNames == NamesOf(newWinners)
    {
      winners := newWinners + winners;
      candidates := remaining;
      drawing := false;
      displayNames := NamesOf(newWinners);
    }

    /** `resetDraw`: the history and the display are cleared and the pool is
        the full participant list again. Resetting a state that is already
        reset changes nothing, so two resets equal one. */
    method ResetDraw()
      requires Valid()
      modifies this`winners, this`candidates, this`displayNames
      ensures Valid()
      ensures winners == [] && candidates == participants && displayNames == []
      ensures old(winners == [] && candidates == participants && displayNames == []) ==> unchanged(this)
    {
      winners := [];
      candidates := participants;
      displayNames := [];
    }
  }
}
