/** newsolver.py: a propagation engine over 81 fields. Each field holds a
    value (the blank ' ' or a character of the puzzle) and a set of remaining
    candidate digits. Naked singles (Field.solve) and hidden singles
    (Field.elim2) are assigned in passes until a whole pass assigns nothing.
    The field records live in an array owned by a Puzzle; an operation of a
    field that reaches back to its puzzle becomes a Puzzle method taking the
    field's index. */
module NewSolver {
  import opened Zones

  const Blank: char := ' '

  const Digits: set<char> := {'1', '2', '3', '4', '5', '6', '7', '8', '9'}

  /** One field of the grid: its cell number, its value and its candidates. */
  datatype Field = Field(index: nat, value: char, candidates: set<char>)

  /** The outcome of Field.solve: the number of fields it assigned, or the
      failure Field.solve raises when no candidate is left. */
  datatype Outcome = Count(solved: nat) | Contradiction

  /** What every field keeps: its candidates are digits, and an assigned
      field has none. */
  predicate FieldOk(f: Field)
  {
    f.candidates <= Digits && (f.value != Blank ==> f.candidates == {})
  }

  /** Field.__init__: a blank field may still take any digit, a given one none. */
  function NewField(index: nat, value: char): (f: Field)
    ensures f.index == index && f.value == value && FieldOk(f)
    ensures value == Blank ==> f.candidates == Digits
  {
    Field(index, value, if value == Blank then Digits else {})
  }

  /** The fields Puzzle.__init__ creates from buf. */
  ghost function Initial(buf: seq<char>): (s: seq<Field>)
    requires |buf| >= 81
    ensures WellFormed(s)
  {
    seq(81, k requires 0 <= k < 81 => NewField(k, buf[k]))
  }

  /** Field k sits at position k and every field keeps FieldOk. */
  ghost predicate WellFormed(s: seq<Field>)
  {
    |s| == 81 && forall k :: 0 <= k < 81 ==> s[k].index == k && FieldOk(s[k])
  }

  // ---------------------------------------------------------------------
  // Reference definitions over a snapshot of the fields

  /** The assigned values of the fields other than pos in pos's row, column and box. */
  ghost function ZoneValuesOf(s: seq<Field>, pos: nat): set<char>
    requires |s| == 81
  {
    set j | 0 <= j < 81 && j != pos && SameZone(pos, j) && s[j].value != Blank :: s[j].value
  }

  /** No blank field other than pos in pos's zone of kind z has ch as a candidate. */
  ghost predicate Unclaimed(s: seq<Field>, z: Zone, pos: nat, ch: char)
    requires |s| == 81
  {
    forall j :: 0 <= j < 81 && j != pos && Shares(z, pos, j) && s[j].value == Blank ==> ch !in s[j].candidates
  }

  /** ch is a hidden single at pos: in pos's box, row or column no other
      blank field can take ch. */
  ghost predicate IsHiddenSingle(s: seq<Field>, pos: nat, ch: char)
    requires |s| == 81
  {
    Unclaimed(s, BoxZone, pos, ch) || Unclaimed(s, RowZone, pos, ch) || Unclaimed(s, ColumnZone, pos, ch)
  }

  /** f with ch removed from its candidates (`set.discard`). */
  function Discard(f: Field, ch: char): Field
  {
    f.(candidates := f.candidates - {ch})
  }

  /** The fields after ch is discarded in pos's zone of kind z. */
  ghost function ClearedIn(s: seq<Field>, z: Zone, pos: nat, ch: char): seq<Field>
    requires |s| == 81
  {
    seq(81, j requires 0 <= j < 81 => if Shares(z, pos, j) then Discard(s[j], ch) else s[j])
  }

  /** The fields after zoneClear(pos, ch): ch is discarded in every field
      sharing a row, a column or a box with pos, pos included. */
  ghost function Cleared(s: seq<Field>, pos: nat, ch: char): seq<Field>
    requires |s| == 81
  {
    seq(81, j requires 0 <= j < 81 => if SameZone(pos, j) then Discard(s[j], ch) else s[j])
  }

  /** The number of blank fields. */
  function Blanks(s: seq<Field>): (n: nat)
    ensures n <= |s|
  {
    if s == [] then 0 else (if s[0].value == Blank then 1 else 0) + Blanks(s[1..])
  }

  /** t agrees with s on every value. */
  ghost predicate SameValues(s: seq<Field>, t: seq<Field>)
  {
    |s| == |t| && forall k :: 0 <= k < |s| ==> s[k].value == t[k].value
  }

  /** t keeps every value of s, and a field blank in s is either still blank
      or holds a digit in t. */
  ghost predicate Extends(s: seq<Field>, t: seq<Field>)
  {
    |s| == |t| &&
    forall k :: 0 <= k < |s| ==> t[k].value == s[k].value || (s[k].value == Blank && t[k].value in Digits)
  }

  /** No field of t has a candidate its counterpart in s lacks: candidate
      sets only shrink. */
  ghost predicate Shrinks(s: seq<Field>, t: seq<Field>)
  {
    |s| == |t| && forall k :: 0 <= k < |s| ==> t[k].candidates <= s[k].candidates
  }

  /** Some blank field of zone other than pos has ch as a candidate. */
  predicate ClaimedIn(zone: seq<Field>, pos: nat, ch: char)
  {
    exists k :: 0 <= k < |zone| && zone[k].index != pos && zone[k].value == Blank && ch in zone[k].candidates
  }

  // ---------------------------------------------------------------------
  // Lemmas about the reference definitions

  /** Discarding in the box, then the row, then the column is zoneClear. */
  lemma ClearedInThree(s: seq<Field>, pos: nat, ch: char)
    requires |s| == 81
    ensures ClearedIn(ClearedIn(ClearedIn(s, BoxZone, pos, ch), RowZone, pos, ch), ColumnZone, pos, ch) ==
      Cleared(s, pos, ch)
  {
    var t := ClearedIn(ClearedIn(ClearedIn(s, BoxZone, pos, ch), RowZone, pos, ch), ColumnZone, pos, ch);
    forall j | 0 <= j < 81
      ensures t[j] == Cleared(s, pos, ch)[j]
    {
      if SameZone(pos, j) {
        assert s[j].candidates - {ch} - {ch} == s[j].candidates - {ch};
      }
    }
  }

  /** zoneClear keeps every value and the well-formedness of the fields, and
      afterwards no field of pos's zones has ch as a candidate; fields outside
      those zones are untouched. */
  lemma ClearedMeaning(s: seq<Field>, pos: nat, ch: char)
    requires WellFormed(s) && pos < 81
    ensures WellFormed(Cleared(s, pos, ch)) && SameValues(s, Cleared(s, pos, ch))
    ensures forall j :: 0 <= j < 81 && SameZone(pos, j) ==> ch !in Cleared(s, pos, ch)[j].candidates
    ensures forall j :: 0 <= j < 81 && !SameZone(pos, j) ==> Cleared(s, pos, ch)[j] == s[j]
  {
  }

  lemma {:induction false} BlanksSameValues(s: seq<Field>, t: seq<Field>)
    requires SameValues(s, t)
    ensures Blanks(s) == Blanks(t)
  {
    if s != [] {
      BlanksSameValues(s[1..], t[1..]);
    }
  }

  /** Assigning a blank field one non-blank value takes one blank away. */
  lemma {:induction false} BlanksAssign(s: seq<Field>, i: nat, f: Field)
    requires i < |s| && s[i].value == Blank && f.value != Blank
    ensures Blanks(s[i := f]) == Blanks(s) - 1
  {
    if i == 0 {
      assert s[i := f][1..] == s[1..];
    } else {
      assert s[i := f][1..] == s[1..][i - 1 := f];
      BlanksAssign(s[1..], i - 1, f);
    }
  }

  lemma ZoneValuesSameValues(s: seq<Field>, t: seq<Field>, pos: nat)
    requires |s| == 81 && SameValues(s, t)
    ensures ZoneValuesOf(s, pos) == ZoneValuesOf(t, pos)
  {
    forall ch | ch in ZoneValuesOf(s, pos)
      ensures ch in ZoneValuesOf(t, pos)
    {
      var j :| 0 <= j < 81 && j != pos && SameZone(pos, j) && s[j].value != Blank && s[j].value == ch;
      assert t[j].value == ch;
    }
    forall ch | ch in ZoneValuesOf(t, pos)
      ensures ch in ZoneValuesOf(s, pos)
    {
      var j :| 0 <= j < 81 && j != pos && SameZone(pos, j) && t[j].value != Blank && t[j].value == ch;
      assert s[j].value == ch;
    }
  }

  lemma ExtendsTrans(a: seq<Field>, b: seq<Field>, c: seq<Field>)
    requires Extends(a, b) && Extends(b, c)
    ensures Extends(a, c)
  {
    forall k | 0 <= k < |a|
      ensures c[k].value == a[k].value || (a[k].value == Blank && c[k].value in Digits)
    {
      assert b[k].value == a[k].value || (a[k].value == Blank && b[k].value in Digits);
    }
  }

  lemma {:induction false} ShrinksTrans(a: seq<Field>, b: seq<Field>, c: seq<Field>)
    requires Shrinks(a, b) && Shrinks(b, c)
    ensures Shrinks(a, c)
  {
    forall k | 0 <= k < |a|
      ensures c[k].candidates <= a[k].candidates
    {
      assert c[k].candidates <= b[k].candidates <= a[k].candidates;
    }
  }

  /** zoneClear only discards. */
  lemma ClearedShrinks(s: seq<Field>, pos: nat, ch: char)
    requires |s| == 81
    ensures Shrinks(s, Cleared(s, pos, ch))
  {
    var t := Cleared(s, pos, ch);
    forall k | 0 <= k < 81
      ensures t[k].candidates <= s[k].candidates
    {
      if SameZone(pos, k) {
        assert t[k] == Discard(s[k], ch);
      }
    }
  }

  /** Assigning v to field i, emptying its candidates and clearing v from its
      zones only shrinks candidate sets. */
  lemma AssignShrinks(s: seq<Field>, i: nat, v: char)
    requires |s| == 81 && i < 81
    ensures Shrinks(s, Cleared(s[i := Field(i, v, {})], i, v))
  {
    var u := s[i := Field(i, v, {})];
    assert Shrinks(s, u);
    ClearedShrinks(u, i, v);
    ShrinksTrans(s, u, Cleared(u, i, v));
  }

  /** Field.solve only shrinks candidate sets. */
  lemma SolveStepShrinks(s: seq<Field>, i: nat)
    requires |s| == 81 && i < 81
    ensures Shrinks(s, SolveStep(s, i).1)
  {
    var rest := s[i].candidates - ZoneValuesOf(s, i);
    if s[i].value == Blank && rest != {} && |rest| == 1 {
      var v :| v in rest;
      SingletonSet(rest, v);
      assert SolveStep(s, i).1 == Cleared(s[i := Field(i, v, {})], i, v);
      AssignShrinks(s, i, v);
    }
  }

  /** The values gathered from the three zone listings are the zone values. */
  lemma ZoneValuesAgree(s: seq<Field>, box: seq<Field>, row: seq<Field>, col: seq<Field>, pos: nat)
    requires WellFormed(s) && pos < 81
    requires Lists(s, box, BoxZone, pos) && Lists(s, row, RowZone, pos) && Lists(s, col, ColumnZone, pos)
    ensures (set f | f in box + row + col && f.value != Blank && f.index != pos :: f.value) == ZoneValuesOf(s, pos)
  {
    var zone := box + row + col;
    forall ch | ch in (set f | f in zone && f.value != Blank && f.index != pos :: f.value)
      ensures ch in ZoneValuesOf(s, pos)
    {
      var f :| f in zone && f.value != Blank && f.index != pos && f.value == ch;
      ListedValues(s, box, BoxZone, pos, f);
      ListedValues(s, row, RowZone, pos, f);
      ListedValues(s, col, ColumnZone, pos, f);
      var j :| 0 <= j < 81 && SameZone(pos, j) && s[j] == f;
      assert j != pos;
    }
    forall ch | ch in ZoneValuesOf(s, pos)
      ensures ch in (set f | f in zone && f.value != Blank && f.index != pos :: f.value)
    {
      var j :| 0 <= j < 81 && j != pos && SameZone(pos, j) && s[j].value != Blank && s[j].value == ch;
      ListedValues(s, box, BoxZone, pos, s[j]);
      ListedValues(s, row, RowZone, pos, s[j]);
      ListedValues(s, col, ColumnZone, pos, s[j]);
      assert s[j] in zone;
    }
  }

  /** A blank field of a zone listing other than pos claims ch exactly when
      ch is not unclaimed in that zone. */
  lemma ClaimedMeaning(s: seq<Field>, zone: seq<Field>, z: Zone, pos: nat, ch: char)
    requires WellFormed(s) && pos < 81 && Lists(s, zone, z, pos)
    ensures ClaimedIn(zone, pos, ch) <==> !Unclaimed(s, z, pos, ch)
  {
    if ClaimedIn(zone, pos, ch) {
      var k :| 0 <= k < |zone| && zone[k].index != pos && zone[k].value == Blank && ch in zone[k].candidates;
      var j := Member(z, pos, k);
      assert s[j] == zone[k];
    }
    if !Unclaimed(s, z, pos, ch) {
      var j :| 0 <= j < 81 && j != pos && Shares(z, pos, j) && s[j].value == Blank && ch in s[j].candidates;
      assert zone[Slot(z, j)] == s[j];
    }
  }

  /** The loop zoneCheck runs over one zone listing: the union of the
      candidates of its blank fields other than pos. */
  method OtherCandidates(zone: seq<Field>, pos: nat) returns (x: set<char>)
    ensures forall ch :: ch in x <==> ClaimedIn(zone, pos, ch)
  {
    x := {};
    for k := 0 to |zone|
      invariant forall ch :: ch in x <==> ClaimedIn(zone[..k], pos, ch)
    {
      assert zone[..k + 1][..k] == zone[..k];
      if zone[k].index != pos && zone[k].value == Blank {
        x := x + zone[k].candidates;
      }
    }
    assert zone[..|zone|] == zone;
  }

  /** Field i passed Field.solve without being assigned: at least two
      candidates remain, none of them a value of its zones. */
  ghost predicate Narrowed(s: seq<Field>, i: nat)
    requires |s| == 81 && i < 81
  {
    s[i].value == Blank ==> |s[i].candidates| >= 2 && s[i].candidates !! ZoneValuesOf(s, i)
  }

  /** Field i passed Field.elim2 without being assigned: none of its
      candidates is a hidden single. */
  ghost predicate NoHiddenSingle(s: seq<Field>, i: nat)
    requires |s| == 81 && i < 81
  {
    s[i].value == Blank ==> forall c :: c in s[i].candidates ==> !IsHiddenSingle(s, i, c)
  }

  /** The state in which solvePuzzle stops: a whole round assigns nothing. */
  ghost predicate Stalled(s: seq<Field>)
  {
    |s| == 81 && forall i :: 0 <= i < 81 ==> Narrowed(s, i) && NoHiddenSingle(s, i)
  }

  lemma SingletonSet<T>(a: set<T>, v: T)
    requires |a| == 1 && v in a
    ensures a == {v}
  {
    assert |a - {v}| == 0;
  }

  /** Field.solve on field i of s: its outcome and the fields afterwards. An
      assigned field is left alone. A blank field drops the values of its
      zones from its candidates; with exactly one left it takes that digit
      and clears it from its zones, with none left it fails. */
  ghost function SolveStep(s: seq<Field>, i: nat): (Outcome, seq<Field>)
    requires |s| == 81 && i < 81
  {
    var rest := s[i].candidates - ZoneValuesOf(s, i);
    if s[i].value != Blank then (Count(0), s)
    else if rest == {} then (Contradiction, s[i := s[i].(candidates := {})])
    else if |rest| == 1 then
      var v :| v in rest;
      (Count(1), Cleared(s[i := Field(i, v, {})], i, v))
    else (Count(0), s[i := s[i].(candidates := rest)])
  }

  /** Assigning digit v to blank field i and clearing v from its zones keeps
      the fields well formed, only fills a blank, and takes one blank away. */
  lemma AssignKeeps(s: seq<Field>, i: nat, v: char)
    requires WellFormed(s) && i < 81 && s[i].value == Blank && v in Digits
    ensures var t := Cleared(s[i := Field(i, v, {})], i, v);
      WellFormed(t) && Extends(s, t) && Blanks(t) + 1 == Blanks(s)
  {
    var u := s[i := Field(i, v, {})];
    BlanksAssign(s, i, Field(i, v, {}));
    ClearedMeaning(u, i, v);
    BlanksSameValues(u, Cleared(u, i, v));
  }

  /** Narrowing the candidates of a blank field keeps the fields well formed,
      every value and the number of blanks. */
  lemma NarrowKeeps(s: seq<Field>, i: nat, rest: set<char>)
    requires WellFormed(s) && i < 81 && s[i].value == Blank && rest <= s[i].candidates
    ensures var t := s[i := s[i].(candidates := rest)];
      WellFormed(t) && SameValues(s, t) && Extends(s, t) && Blanks(t) == Blanks(s)
  {
    BlanksSameValues(s, s[i := s[i].(candidates := rest)]);
  }

  /** Field.solve keeps the fields well formed, only turns a blank field into
      a digit, and takes away exactly as many blanks as it reports solved. */
  lemma SolveStepKeeps(s: seq<Field>, i: nat)
    requires WellFormed(s) && i < 81
    ensures WellFormed(SolveStep(s, i).1)
    ensures Extends(s, SolveStep(s, i).1)
    ensures SolveStep(s, i).0.Count? ==> Blanks(SolveStep(s, i).1) + SolveStep(s, i).0.solved == Blanks(s)
  {
    var rest := s[i].candidates - ZoneValuesOf(s, i);
    if s[i].value != Blank {
    } else if rest == {} {
      NarrowKeeps(s, i, {});
    } else if |rest| == 1 {
      var v :| v in rest;
      SingletonSet(rest, v);
      assert SolveStep(s, i).1 == Cleared(s[i := Field(i, v, {})], i, v);
      AssignKeeps(s, i, v);
    } else {
      NarrowKeeps(s, i, rest);
    }
  }

  /** Field.solve assigns field i exactly when i is blank and, once the
      values of its zones are dropped, a single candidate remains; and it
      fails exactly when none remains. */
  lemma SolveStepOutcome(s: seq<Field>, i: nat)
    requires WellFormed(s) && i < 81
    ensures SolveStep(s, i).0 == Count(1) <==>
      s[i].value == Blank && |s[i].candidates - ZoneValuesOf(s, i)| == 1
    ensures SolveStep(s, i).0 == Contradiction <==>
      s[i].value == Blank && s[i].candidates - ZoneValuesOf(s, i) == {}
    ensures SolveStep(s, i).0 == Count(1) ==>
      SolveStep(s, i).1[i].value in s[i].candidates - ZoneValuesOf(s, i)
  {
  }

  /** A Field.solve step on field i that assigns nothing changes no value
      and no other field, keeps the earlier fields narrowed and narrows i. */
  lemma SolveStepNarrows(s: seq<Field>, i: nat)
    requires WellFormed(s) && i < 81 && SolveStep(s, i).0 == Count(0)
    requires forall k :: 0 <= k < i ==> Narrowed(s, k)
    ensures SameValues(s, SolveStep(s, i).1)
    ensures forall k :: 0 <= k < 81 && k != i ==> SolveStep(s, i).1[k] == s[k]
    ensures forall k :: 0 <= k <= i ==> Narrowed(SolveStep(s, i).1, k)
  {
    var t := SolveStep(s, i).1;
    assert SameValues(s, t);
    forall k | 0 <= k <= i
      ensures Narrowed(t, k)
    {
      ZoneValuesSameValues(s, t, k);
      if k < i {
        assert Narrowed(s, k);
      }
    }
  }

  /** The first half of a round on fields 0..n-1: Field.solve on each in
      index order, stopping at the first failure. The result is the number
      of assigned fields, whether it failed, and the fields afterwards. */
  ghost function SolveRun(s: seq<Field>, n: nat): (r: (nat, bool, seq<Field>))
    requires |s| == 81 && n <= 81
    ensures |r.2| == 81
    decreases n
  {
    if n == 0 then (0, false, s)
    else
      var prev := SolveRun(s, n - 1);
      if prev.1 then prev
      else
        var step := SolveStep(prev.2, n - 1);
        if step.0 == Contradiction then (prev.0, true, step.1)
        else (prev.0 + step.0.solved, false, step.1)
  }

  /** Once the run has failed, the later fields are not visited. */
  lemma {:induction false} SolveRunStops(s: seq<Field>, n: nat, m: nat)
    requires |s| == 81 && n <= m <= 81 && SolveRun(s, n).1
    ensures SolveRun(s, m) == SolveRun(s, n)
    decreases m
  {
    if m > n {
      SolveRunStops(s, n, m - 1);
    }
  }

  /** Running Field.solve on field n extends a run over fields 0..n-1 that
      has not failed; a failure there is the outcome of the whole pass. */
  lemma SolveRunNext(s: seq<Field>, n: nat, solved: nat, t: seq<Field>, out: Outcome, u: seq<Field>)
    requires |s| == 81 && n < 81
    requires SolveRun(s, n).0 == solved && !SolveRun(s, n).1 && SolveRun(s, n).2 == t
    requires SolveStep(t, n).0 == out && SolveStep(t, n).1 == u
    ensures out == Contradiction ==> SolveRun(s, 81).0 == solved && SolveRun(s, 81).1 && SolveRun(s, 81).2 == u
    ensures out.Count? ==>
      SolveRun(s, n + 1).0 == solved + out.solved && !SolveRun(s, n + 1).1 && SolveRun(s, n + 1).2 == u
  {
    if out == Contradiction {
      SolveRunStops(s, n + 1, 81);
    }
  }

  /** Field.solve leaves a field it already narrowed alone: an assigned
      field is skipped and a blank one loses nothing and is not assigned. */
  lemma SolveStepAtRest(s: seq<Field>, i: nat)
    requires |s| == 81 && i < 81 && Narrowed(s, i)
    ensures SolveStep(s, i) == (Count(0), s)
  {
    if s[i].value == Blank {
      assert s[i].candidates - ZoneValuesOf(s, i) == s[i].candidates;
      assert s[i := s[i].(candidates := s[i].candidates)] == s;
    }
  }

  /** One Field.elim2 step on field i: either nothing changes and no
      candidate of a blank field i is a hidden single, or blank field i takes
      a candidate that is a hidden single, its candidates are emptied and the
      digit is cleared from its zones. */
  ghost predicate Elim2Step(s: seq<Field>, i: nat, t: seq<Field>)
    requires |s| == 81 && i < 81
  {
    (t == s && (s[i].value == Blank ==> forall c :: c in s[i].candidates ==> !IsHiddenSingle(s, i, c))) ||
    (s[i].value == Blank &&
     exists v :: v in s[i].candidates && IsHiddenSingle(s, i, v) && t == Cleared(s[i := Field(i, v, {})], i, v))
  }

  // ---------------------------------------------------------------------
  // Soundness: the propagation never loses a completion of the grid

  /** A completed grid: a digit in every cell, and different digits in any
      two cells that share a zone. */
  ghost predicate IsGrid(sol: seq<char>)
  {
    |sol| == 81 && (forall k :: 0 <= k < 81 ==> sol[k] in Digits) &&
    forall i, j :: 0 <= i < 81 && 0 <= j < 81 && i != j && SameZone(i, j) ==> sol[i] != sol[j]
  }

  /** The fields still allow sol: an assigned field holds sol's digit and a
      blank field keeps sol's digit among its candidates. */
  ghost predicate Allows(s: seq<Field>, sol: seq<char>)
  {
    |s| == 81 && |sol| == 81 &&
    forall k :: 0 <= k < 81 ==> if s[k].value == Blank then sol[k] in s[k].candidates else s[k].value == sol[k]
  }

  /** Blank field k has no candidate that is already a value of its zones. */
  ghost predicate ConsistentAt(s: seq<Field>, k: nat)
    requires |s| == 81 && k < 81
  {
    s[k].value == Blank ==> s[k].candidates !! ZoneValuesOf(s, k)
  }

  ghost predicate Consistent(s: seq<Field>)
  {
    |s| == 81 && forall k :: 0 <= k < 81 ==> ConsistentAt(s, k)
  }

  /** A fresh puzzle allows every completed grid that keeps its givens. */
  lemma InitialAllows(buf: seq<char>, sol: seq<char>)
    requires |buf| >= 81 && IsGrid(sol)
    requires forall k :: 0 <= k < 81 ==> buf[k] == Blank || buf[k] == sol[k]
    ensures Allows(Initial(buf), sol)
  {
  }

  /** Giving blank field i sol's digit and clearing it from i's zones still allows sol. */
  lemma AssignAllows(s: seq<Field>, i: nat, sol: seq<char>)
    requires WellFormed(s) && i < 81 && IsGrid(sol) && Allows(s, sol) && s[i].value == Blank
    ensures Allows(Cleared(s[i := Field(i, sol[i], {})], i, sol[i]), sol)
  {
    var t := Cleared(s[i := Field(i, sol[i], {})], i, sol[i]);
    forall k | 0 <= k < 81
      ensures if t[k].value == Blank then sol[k] in t[k].candidates else t[k].value == sol[k]
    {
      if k != i && SameZone(i, k) {
        assert sol[k] != sol[i];
      }
    }
  }

  /** A digit that a grid allowed by s needs at blank field i is never a value
      of i's zones. */
  lemma SolutionDigitFree(s: seq<Field>, i: nat, sol: seq<char>)
    requires i < 81 && IsGrid(sol) && Allows(s, sol)
    ensures sol[i] !in ZoneValuesOf(s, i)
  {
    forall j | 0 <= j < 81 && j != i && SameZone(i, j)
      ensures s[j].value == Blank || s[j].value != sol[i]
    {
      assert sol[j] != sol[i];
    }
  }

  /** Field.solve never fails on fields that allow a completed grid, and the
      fields it leaves still allow that grid; a field it assigns gets the
      grid's digit. */
  lemma SolveStepSound(s: seq<Field>, i: nat, sol: seq<char>)
    requires WellFormed(s) && i < 81 && IsGrid(sol)
    ensures Allows(s, sol) ==> SolveStep(s, i).0 != Contradiction && Allows(SolveStep(s, i).1, sol)
    ensures Allows(s, sol) && SolveStep(s, i).0 == Count(1) ==> SolveStep(s, i).1[i].value == sol[i]
  {
    if Allows(s, sol) && s[i].value == Blank {
      var rest := s[i].candidates - ZoneValuesOf(s, i);
      SolutionDigitFree(s, i, sol);
      assert sol[i] in rest;
      if |rest| == 1 {
        SingletonSet(rest, sol[i]);
        AssignAllows(s, i, sol);
      }
    }
  }

  /** Assigning v to blank field i and clearing it from i's zones keeps every
      other field consistent. */
  lemma AssignConsistentAt(s: seq<Field>, i: nat, v: char, k: nat)
    requires WellFormed(s) && i < 81 && k < 81 && k != i && ConsistentAt(s, k)
    ensures ConsistentAt(Cleared(s[i := Field(i, v, {})], i, v), k)
  {
    var t := Cleared(s[i := Field(i, v, {})], i, v);
    forall c | c in ZoneValuesOf(t, k)
      ensures c in ZoneValuesOf(s, k) || (SameZone(k, i) && c == v)
    {
      var j :| 0 <= j < 81 && j != k && SameZone(k, j) && t[j].value != Blank && t[j].value == c;
    }
  }

  /** Narrowing the candidates of field i keeps every other field consistent. */
  lemma NarrowConsistentAt(s: seq<Field>, i: nat, rest: set<char>, k: nat)
    requires WellFormed(s) && i < 81 && k < 81 && k != i && ConsistentAt(s, k)
    ensures ConsistentAt(s[i := s[i].(candidates := rest)], k)
  {
    ZoneValuesSameValues(s, s[i := s[i].(candidates := rest)], k);
  }

  /** A Field.solve step that does not fail keeps the earlier fields
      consistent and leaves field i consistent. */
  lemma SolveStepConsistent(s: seq<Field>, i: nat)
    requires WellFormed(s) && i < 81 && SolveStep(s, i).0 != Contradiction
    requires forall k :: 0 <= k < i ==> ConsistentAt(s, k)
    ensures forall k :: 0 <= k <= i ==> ConsistentAt(SolveStep(s, i).1, k)
  {
    var t := SolveStep(s, i).1;
    var rest := s[i].candidates - ZoneValuesOf(s, i);
    if s[i].value == Blank && |rest| == 1 {
      var v :| v in rest;
      SingletonSet(rest, v);
      assert t == Cleared(s[i := Field(i, v, {})], i, v);
      forall k | 0 <= k < i
        ensures ConsistentAt(t, k)
      {
        AssignConsistentAt(s, i, v, k);
      }
    } else if s[i].value == Blank {
      assert t == s[i := s[i].(candidates := rest)];
      forall k | 0 <= k < i
        ensures ConsistentAt(t, k)
      {
        NarrowConsistentAt(s, i, rest, k);
      }
      ZoneValuesSameValues(s, t, i);
    }
  }

  /** The values of the first n cells of i's zone of kind z in sol. */
  ghost function ZoneDigits(sol: seq<char>, z: Zone, i: nat, n: nat): set<char>
    requires |sol| == 81 && i < 81 && n <= 9
  {
    if n == 0 then {}
    else
      MemberInZone(z, i, n - 1);
      ZoneDigits(sol, z, i, n - 1) + {sol[Member(z, i, n - 1)]}
  }

  lemma {:induction false} ZoneDigitsCount(sol: seq<char>, z: Zone, i: nat, n: nat)
    requires IsGrid(sol) && i < 81 && n <= 9
    ensures |ZoneDigits(sol, z, i, n)| == n
    ensures ZoneDigits(sol, z, i, n) <= Digits
    ensures forall ch :: ch in ZoneDigits(sol, z, i, n) ==>
      exists k :: 0 <= k < n && 0 <= Member(z, i, k) < 81 && sol[Member(z, i, k)] == ch
  {
    if n > 0 {
      ZoneDigitsCount(sol, z, i, n - 1);
      MemberInZone(z, i, n - 1);
      var m := Member(z, i, n - 1);
      if sol[m] in ZoneDigits(sol, z, i, n - 1) {
        var k :| 0 <= k < n - 1 && 0 <= Member(z, i, k) < 81 && sol[Member(z, i, k)] == sol[m];
        MemberInZone(z, i, k);
        assert Member(z, i, k) != m;
        assert SameZone(Member(z, i, k), m) by {
          assert Shares(z, Member(z, i, k), m);
        }
      }
    }
  }

  lemma {:induction false} SubsetCard<T>(a: set<T>, b: set<T>)
    requires a <= b
    ensures |a| <= |b|
    decreases |a|
  {
    if a != {} {
      var x :| x in a;
      SubsetCard(a - {x}, b - {x});
    }
  }

  lemma DigitCount()
    ensures |Digits| == 9
  {
  }

  /** Every zone of a completed grid holds every digit. */
  lemma ZoneHoldsEveryDigit(sol: seq<char>, z: Zone, i: nat, ch: char)
    requires IsGrid(sol) && i < 81 && ch in Digits
    ensures exists j :: 0 <= j < 81 && Shares(z, i, j) && sol[j] == ch
  {
    var d := ZoneDigits(sol, z, i, 9);
    ZoneDigitsCount(sol, z, i, 9);
    if ch !in d {
      SubsetCard(d, Digits - {ch});
      DigitCount();
    }
    var k :| 0 <= k < 9 && 0 <= Member(z, i, k) < 81 && sol[Member(z, i, k)] == ch;
    MemberInZone(z, i, k);
  }

  /** On consistent fields, a candidate that is a hidden single at blank
      field i is the digit every allowed completed grid puts there. */
  lemma HiddenSingleSound(s: seq<Field>, i: nat, ch: char, sol: seq<char>)
    requires WellFormed(s) && Consistent(s) && i < 81 && IsGrid(sol) && Allows(s, sol)
    requires s[i].value == Blank && ch in s[i].candidates && IsHiddenSingle(s, i, ch)
    ensures sol[i] == ch
  {
    var z := if Unclaimed(s, BoxZone, i, ch) then BoxZone
      else if Unclaimed(s, RowZone, i, ch) then RowZone else ColumnZone;
    assert Unclaimed(s, z, i, ch);
    ZoneHoldsEveryDigit(sol, z, i, ch);
    OthersAvoid(s, z, i, ch, sol);
  }

  /** If no other blank field of i's zone of kind z keeps candidate ch and
      consistent field i does keep it, then no other cell of that zone holds
      ch in an allowed grid. */
  lemma OthersAvoid(s: seq<Field>, z: Zone, i: nat, ch: char, sol: seq<char>)
    requires WellFormed(s) && i < 81 && ConsistentAt(s, i) && Allows(s, sol)
    requires s[i].value == Blank && ch in s[i].candidates && Unclaimed(s, z, i, ch)
    ensures forall j :: 0 <= j < 81 && j != i && Shares(z, i, j) ==> sol[j] != ch
  {
    forall j | 0 <= j < 81 && j != i && Shares(z, i, j)
      ensures sol[j] != ch
    {
      if s[j].value != Blank {
        assert s[j].value in ZoneValuesOf(s, i);
      }
    }
  }

  /** Assigning a hidden single to consistent fields, as Field.elim2 does,
      keeps them consistent and keeps every completed grid they allow. */
  lemma HiddenAssignKeeps(s: seq<Field>, i: nat, v: char)
    requires WellFormed(s) && Consistent(s) && i < 81
    requires s[i].value == Blank && v in s[i].candidates && IsHiddenSingle(s, i, v)
    ensures Consistent(Cleared(s[i := Field(i, v, {})], i, v))
    ensures forall sol :: IsGrid(sol) && Allows(s, sol) ==> Allows(Cleared(s[i := Field(i, v, {})], i, v), sol)
  {
    var t := Cleared(s[i := Field(i, v, {})], i, v);
    forall k | 0 <= k < 81
      ensures ConsistentAt(t, k)
    {
      if k != i {
        AssignConsistentAt(s, i, v, k);
      }
    }
    forall sol | IsGrid(sol) && Allows(s, sol)
      ensures Allows(t, sol)
    {
      HiddenSingleSound(s, i, v, sol);
      AssignAllows(s, i, sol);
    }
  }

  /** Field.solve at field i keeps every completed grid the fields allow,
      and does not fail while one exists. */
  lemma SolveStepKeepsGrids(s: seq<Field>, i: nat)
    requires WellFormed(s) && i < 81
    ensures forall sol :: IsGrid(sol) && Allows(s, sol) ==>
      SolveStep(s, i).0 != Contradiction && Allows(SolveStep(s, i).1, sol)
  {
    forall sol | IsGrid(sol) && Allows(s, sol)
      ensures SolveStep(s, i).0 != Contradiction && Allows(SolveStep(s, i).1, sol)
    {
      SolveStepSound(s, i, sol);
    }
  }

  /** sol keeps every given of the puzzle text buf. */
  ghost predicate KeepsGivens(buf: seq<char>, sol: seq<char>)
  {
    |buf| >= 81 && |sol| == 81 && forall k :: 0 <= k < 81 ==> buf[k] == Blank || buf[k] == sol[k]
  }

  /** The first n steps of trace are Field.elim2 steps on fields 0..n-1. */
  ghost predicate Elim2Trace(trace: seq<seq<Field>>, n: nat)
  {
    n <= 81 && n < |trace| && forall k :: 0 <= k < n ==> |trace[k]| == 81 && Elim2Step(trace[k], k, trace[k + 1])
  }

  /** One more Field.elim2 step extends such a trace. */
  lemma TraceExtends(trace: seq<seq<Field>>, n: nat, next: seq<Field>)
    requires Elim2Trace(trace, n) && |trace| == n + 1 && n < 81 && |trace[n]| == 81
    requires Elim2Step(trace[n], n, next)
    ensures Elim2Trace(trace + [next], n + 1)
  {
    var longer := trace + [next];
    forall k | 0 <= k < n + 1
      ensures |longer[k]| == 81 && Elim2Step(longer[k], k, longer[k + 1])
    {
      assert longer[k] == trace[k];
      if k < n {
        assert longer[k + 1] == trace[k + 1];
      }
    }
  }

  // ---------------------------------------------------------------------
  // The puzzle

  class Puzzle {
    const fields: array<Field>

    ghost predicate Valid()
      reads this, fields
    {
      fields.Length == 81 && WellFormed(fields[..])
    }

    /** Puzzle.__init__: field i is created from character i of buf. */
    constructor (buf: seq<char>)
      requires |buf| >= 81
      ensures Valid() && fresh(fields)
      ensures fields[..] == Initial(buf)
    {
      var a := new Field[81](_ => NewField(0, Blank));
      for i := 0 to 81
        invariant forall k :: 0 <= k < i ==> a[k] == NewField(k, buf[k])
      {
        a[i] := NewField(i, buf[i]);
      }
      fields := a;
    }

    /** row: the fields of index's row. */
    function Row(index: nat): (r: seq<Field>)
      requires Valid() && index < 81
      reads this, fields
      ensures Lists(fields[..], r, RowZone, index)
    {
      ZoneSliceLists(fields[..], RowZone, index);
      fields[RowStart(index)..RowStart(index) + 9]
    }

    /** column: the fields of index's column. */
    function Column(index: nat): (r: seq<Field>)
      requires Valid() && index < 81
      reads this, fields
      ensures Lists(fields[..], r, ColumnZone, index)
    {
      ZoneSliceLists(fields[..], ColumnZone, index);
      Stride(fields[..], index % 9, 9)
    }

    /** cell: the fields of index's 3x3 box. */
    function Cell(index: nat): (r: seq<Field>)
      requires Valid() && index < 81
      reads this, fields
      ensures Lists(fields[..], r, BoxZone, index)
    {
      ZoneSliceLists(fields[..], BoxZone, index);
      SliceBounds(index);
      var topleft := BoxTopLeft(index);
      fields[topleft..topleft + 3] + fields[topleft + 9..topleft + 9 + 3] + fields[topleft + 18..topleft + 18 + 3]
    }

    /** zoneValues: the values assigned in pos's zones, pos excluded. */
    function ZoneValues(pos: nat): (r: set<char>)
      requires Valid() && pos < 81
      reads this, fields
      ensures r == ZoneValuesOf(fields[..], pos)
    {
      ZoneValuesAgree(fields[..], Cell(pos), Row(pos), Column(pos), pos);
      set f | f in Cell(pos) + Row(pos) + Column(pos) && f.value != Blank && f.index != pos :: f.value
    }

    /** zoneCheck: true when, in the box, the row or the column of pos, no
        other blank field has ch as a candidate. */
    method ZoneCheck(pos: nat, ch: char) returns (ok: bool)
      requires Valid() && pos < 81
      ensures ok <==> IsHiddenSingle(fields[..], pos, ch)
    {
      var x := OtherCandidates(Cell(pos), pos);
      ClaimedMeaning(fields[..], Cell(pos), BoxZone, pos, ch);
      if ch !in x {
        return true;
      }
      x := OtherCandidates(Row(pos), pos);
      ClaimedMeaning(fields[..], Row(pos), RowZone, pos, ch);
      if ch !in x {
        return true;
      }
      x := OtherCandidates(Column(pos), pos);
      ClaimedMeaning(fields[..], Column(pos), ColumnZone, pos, ch);
      if ch !in x {
        return true;
      }
      return false;
    }

    /** One of zoneClear's loops: discard ch from each field of the listing
        of pos's zone of kind z. */
    method DiscardAll(zone: seq<Field>, z: Zone, pos: nat, ch: char)
      requires Valid() && pos < 81 && Lists(fields[..], zone, z, pos)
      modifies fields
      ensures Valid()
      ensures fields[..] == ClearedIn(old(fields[..]), z, pos, ch)
    {
      ghost var s := fields[..];
      for k := 0 to 9
        invariant forall j :: 0 <= j < 81 ==>
          fields[j] == if Shares(z, pos, j) && Slot(z, j) < k then Discard(s[j], ch) else s[j]
      {
        var f := zone[k];
        assert f == s[Member(z, pos, k)];
        forall j | 0 <= j < 81 && Shares(z, pos, j) && Slot(z, j) == k
          ensures j == Member(z, pos, k)
        {
          assert s[j] == zone[k];
        }
        fields[f.index] := Discard(f, ch);
      }
      assert fields[..] == ClearedIn(s, z, pos, ch);
    }

    /** zoneClear: discard ch from every field of pos's box, row and column. */
    method ZoneClear(pos: nat, ch: char)
      requires Valid() && pos < 81
      modifies fields
      ensures Valid()
      ensures fields[..] == Cleared(old(fields[..]), pos, ch)
    {
      ghost var s := fields[..];
      DiscardAll(Cell(pos), BoxZone, pos, ch);
      DiscardAll(Row(pos), RowZone, pos, ch);
      DiscardAll(Column(pos), ColumnZone, pos, ch);
      ClearedInThree(s, pos, ch);
    }

    /** Field.solve on field i. */
    method SolveField(i: nat) returns (out: Outcome)
      requires Valid() && i < 81
      modifies fields
      ensures Valid()
      ensures (out, fields[..]) == SolveStep(old(fields[..]), i)
    {
      ghost var s := fields[..];
      if fields[i].value != Blank {
        return Count(0);
      }
      var zv := ZoneValues(i);
      var rest := fields[i].candidates - zv;
      fields[i] := fields[i].(candidates := rest);
      if |rest| == 1 {
        var v :| v in rest;
        SingletonSet(rest, v);
        fields[i] := fields[i].(value := v, candidates := {});
        assert fields[..] == s[i := Field(i, v, {})];
        ZoneClear(i, v);
        return Count(1);
      } else if |rest| == 0 {
        return Contradiction;
      }
      return Count(0);
    }

    /** Field.elim2 on field i: a blank field takes the first of its
        candidates (in some order) that zoneCheck reports as a hidden single,
        and clears it from its zones. */
    method Elim2(i: nat) returns (n: nat)
      requires Valid() && i < 81
      modifies fields
      ensures Valid()
      ensures n <= 1
      ensures n == 0 ==> fields[..] == old(fields[..])
      ensures n == 0 && old(fields[i].value) == Blank ==>
        forall c :: c in old(fields[i].candidates) ==> !IsHiddenSingle(old(fields[..]), i, c)
      ensures n == 1 ==> var v := fields[i].value;
        old(fields[i].value) == Blank && v in old(fields[i].candidates) && IsHiddenSingle(old(fields[..]), i, v) &&
        fields[..] == Cleared(old(fields[..])[i := Field(i, v, {})], i, v)
      ensures Extends(old(fields[..]), fields[..])
      ensures Blanks(fields[..]) + n == Blanks(old(fields[..]))
      ensures Elim2Step(old(fields[..]), i, fields[..])
    {
      ghost var s := fields[..];
      if fields[i].value != Blank {
        return 0;
      }
      var rest := fields[i].candidates;
      while rest != {}
        invariant fields[..] == s
        invariant rest <= s[i].candidates
        invariant forall c :: c in s[i].candidates && c !in rest ==> !IsHiddenSingle(s, i, c)
        decreases |rest|
      {
        var c :| c in rest;
        var ok := ZoneCheck(i, c);
        if ok {
          fields[i] := fields[i].(value := c, candidates := {});
          assert fields[..] == s[i := Field(i, c, {})];
          ZoneClear(i, c);
          AssignKeeps(s, i, c);
          return 1;
        }
        rest := rest - {c};
      }
      return 0;
    }

    /** The first half of a round of solvePuzzle: Field.solve on every field
        in index order, stopping at a failure. */
    method SolvePass() returns (solved: nat, contradiction: bool)
      requires Valid()
      modifies fields
      ensures Valid()
      ensures Extends(old(fields[..]), fields[..])
      ensures Shrinks(old(fields[..]), fields[..])
      ensures !contradiction ==> Blanks(fields[..]) + solved == Blanks(old(fields[..]))
      ensures !contradiction && solved == 0 ==>
        SameValues(old(fields[..]), fields[..]) && forall k :: 0 <= k < 81 ==> Narrowed(fields[..], k)
      ensures !contradiction ==> Consistent(fields[..])
      ensures forall sol :: IsGrid(sol) && Allows(old(fields[..]), sol) ==> !contradiction && Allows(fields[..], sol)
      ensures (solved, contradiction, fields[..]) == SolveRun(old(fields[..]), 81)
      ensures (forall k :: 0 <= k < 81 ==> Narrowed(old(fields[..]), k)) ==>
        !contradiction && solved == 0 && fields[..] == old(fields[..])
    {
      ghost var start := fields[..];
      ghost var atRest := forall k :: 0 <= k < 81 ==> Narrowed(start, k);
      solved := 0;
      for idx := 0 to 81
        invariant Valid()
        invariant Extends(start, fields[..])
        invariant Shrinks(start, fields[..])
        invariant Blanks(fields[..]) + solved == Blanks(start)
        invariant solved == 0 ==>
          SameValues(start, fields[..]) && (forall k :: 0 <= k < idx ==> Narrowed(fields[..], k))
        invariant forall k :: 0 <= k < idx ==> ConsistentAt(fields[..], k)
        invariant forall sol :: IsGrid(sol) && Allows(start, sol) ==> Allows(fields[..], sol)
        invariant SolveRun(start, idx).0 == solved && !SolveRun(start, idx).1
        invariant SolveRun(start, idx).2 == fields[..]
        invariant atRest ==> solved == 0 && fields[..] == start
      {
        ghost var before := fields[..];
        if atRest {
          SolveStepAtRest(before, idx);
        }
        var out := SolveField(idx);
        SolveRunNext(start, idx, solved, before, out, fields[..]);
        SolveStepKeeps(before, idx);
        SolveStepKeepsGrids(before, idx);
        ExtendsTrans(start, before, fields[..]);
        SolveStepShrinks(before, idx);
        ShrinksTrans(start, before, fields[..]);
        if out == Contradiction {
          return solved, true;
        }
        SolveStepConsistent(before, idx);
        if solved == 0 && out.solved == 0 {
          SolveStepNarrows(before, idx);
        }
        solved := solved + out.solved;
      }
      contradiction := false;
    }

    /** The second half of a round of solvePuzzle: Field.elim2 on every field
        in index order. */
    method Elim2Pass() returns (solved: nat, ghost trace: seq<seq<Field>>)
      requires Valid() && Consistent(fields[..])
      modifies fields
      ensures Valid() && Consistent(fields[..])
      ensures forall sol :: IsGrid(sol) && Allows(old(fields[..]), sol) ==> Allows(fields[..], sol)
      ensures Extends(old(fields[..]), fields[..])
      ensures Shrinks(old(fields[..]), fields[..])
      ensures Blanks(fields[..]) + solved == Blanks(old(fields[..]))
      ensures solved == 0 ==>
        fields[..] == old(fields[..]) && forall k :: 0 <= k < 81 ==> NoHiddenSingle(fields[..], k)
      ensures |trace| == 82 && trace[0] == old(fields[..]) && trace[81] == fields[..]
      ensures forall k :: 0 <= k < 81 ==> |trace[k]| == 81 && Elim2Step(trace[k], k, trace[k + 1])
      ensures (forall k :: 0 <= k < 81 ==> NoHiddenSingle(old(fields[..]), k)) ==>
        solved == 0 && fields[..] == old(fields[..])
    {
      ghost var start := fields[..];
      solved := 0;
      trace := [start];
      for idx := 0 to 81
        invariant Valid()
        invariant Extends(start, fields[..])
        invariant Shrinks(start, fields[..])
        invariant Blanks(fields[..]) + solved == Blanks(start)
        invariant solved == 0 ==>
          fields[..] == start && forall k :: 0 <= k < idx ==> NoHiddenSingle(fields[..], k)
        invariant Consistent(fields[..])
        invariant forall sol :: IsGrid(sol) && Allows(start, sol) ==> Allows(fields[..], sol)
        invariant |trace| == idx + 1 && trace[0] == start && trace[idx] == fields[..]
        invariant Elim2Trace(trace, idx)
        invariant (forall k :: 0 <= k < 81 ==> NoHiddenSingle(start, k)) ==> solved == 0
      {
        ghost var before := fields[..];
        if forall k :: 0 <= k < 81 ==> NoHiddenSingle(start, k) {
          assert NoHiddenSingle(before, idx);
        }
        var n := Elim2(idx);
        TraceExtends(trace, idx, fields[..]);
        trace := trace + [fields[..]];
        ExtendsTrans(start, before, fields[..]);
        if n == 1 {
          HiddenAssignKeeps(before, idx, fields[idx].value);
          AssignShrinks(before, idx, fields[idx].value);
        }
        ShrinksTrans(start, before, fields[..]);
        solved := solved + n;
      }
    }
  }

  // ---------------------------------------------------------------------
  // solvePuzzle

  /** solvePuzzle without its printing: rounds of Field.solve over every
      field, then Field.elim2 over every field, until a round assigns
      nothing. contradiction reports the failure Field.solve raises. */
  method SolvePuzzle(buf: seq<char>) returns (p: Puzzle, contradiction: bool)
    requires |buf| >= 81
    ensures p.Valid()
    ensures forall k :: 0 <= k < 81 ==>
      p.fields[k].value == buf[k] || (buf[k] == Blank && p.fields[k].value in Digits)
    ensures Shrinks(Initial(buf), p.fields[..])
    ensures !contradiction ==> Stalled(p.fields[..])
    ensures forall sol :: IsGrid(sol) && KeepsGivens(buf, sol) ==> !contradiction && Allows(p.fields[..], sol)
  {
    p := new Puzzle(buf);
    ghost var initial := p.fields[..];
    forall sol | IsGrid(sol) && KeepsGivens(buf, sol)
      ensures Allows(initial, sol)
    {
      InitialAllows(buf, sol);
    }
    while true
      invariant p.Valid() && fresh(p.fields)
      invariant Extends(initial, p.fields[..])
      invariant Shrinks(initial, p.fields[..])
      invariant forall sol :: IsGrid(sol) && KeepsGivens(buf, sol) ==> Allows(p.fields[..], sol)
      decreases Blanks(p.fields[..])
    {
      ghost var start := p.fields[..];
      var solved, failed := p.SolvePass();
      ExtendsTrans(initial, start, p.fields[..]);
      ShrinksTrans(initial, start, p.fields[..]);
      if failed {
        return p, true;
      }
      ghost var mid := p.fields[..];
      var more, trace := p.Elim2Pass();
      ExtendsTrans(initial, mid, p.fields[..]);
      ShrinksTrans(initial, mid, p.fields[..]);
      solved := solved + more;
      if solved == 0 {
        break;
      }
    }
    return p, false;
  }

  // ---------------------------------------------------------------------
  // The puzzle P1 of newsolver.py's tests

  const P1: string :=
    "38 6     " + "  9      " + " 2  3 51 " +
    "     5   " + " 3  1  6 " + "   4     " +
    " 17 5  8 " + "      9  " + "     7 32"

  /** newsolver.py's zoneValues test at cell 0 of P1: its zones hold 8, 6, 9 and 2. */
  lemma P1ZoneValuesAt0()
    ensures ZoneValuesOf(Initial(P1), 0) == {'8', '6', '9', '2'}
  {
    var s := Initial(P1);
    P1RowAt0();
    P1ColumnAt0();
    P1BoxAt0();
    ZoneValuesWithin(s, 0, {'8', '6', '9', '2'});
    assert s[1].value == '8' && s[3].value == '6' && s[11].value == '9' && s[19].value == '2';
    ZoneValueOfPeer(s, 0, 1);
    ZoneValueOfPeer(s, 0, 3);
    ZoneValueOfPeer(s, 0, 11);
    ZoneValueOfPeer(s, 0, 19);
  }

  lemma P1RowAt0()
    ensures ZoneAmong(Initial(P1), RowZone, 0, {'8', '6', '9', '2'})
  {
    var s := Initial(P1);
    forall k | 0 <= k < 9
      ensures 0 <= Member(RowZone, 0, k) < 81 && Member(RowZone, 0, k) != 0 && s[Member(RowZone, 0, k)].value != Blank ==>
        s[Member(RowZone, 0, k)].value in {'8', '6', '9', '2'}
    {
      assert k == 0 || k == 1 || k == 2 || k == 3 || k == 4 || k == 5 || k == 6 || k == 7 || k == 8;
    }
  }

  lemma P1ColumnAt0()
    ensures ZoneAmong(Initial(P1), ColumnZone, 0, {'8', '6', '9', '2'})
  {
    var s := Initial(P1);
    forall k | 0 <= k < 9
      ensures 0 <= Member(ColumnZone, 0, k) < 81 && Member(ColumnZone, 0, k) != 0 && s[Member(ColumnZone, 0, k)].value != Blank ==>
        s[Member(ColumnZone, 0, k)].value in {'8', '6', '9', '2'}
    {
      assert k == 0 || k == 1 || k == 2 || k == 3 || k == 4 || k == 5 || k == 6 || k == 7 || k == 8;
    }
  }

  lemma P1BoxAt0()
    ensures ZoneAmong(Initial(P1), BoxZone, 0, {'8', '6', '9', '2'})
  {
    var s := Initial(P1);
    forall k | 0 <= k < 9
      ensures 0 <= Member(BoxZone, 0, k) < 81 && Member(BoxZone, 0, k) != 0 && s[Member(BoxZone, 0, k)].value != Blank ==>
        s[Member(BoxZone, 0, k)].value in {'8', '6', '9', '2'}
    {
      assert k == 0 || k == 1 || k == 2 || k == 3 || k == 4 || k == 5 || k == 6 || k == 7 || k == 8;
    }
  }

  /** newsolver.py's zoneValues test at cell 27 of P1: its zones hold 3 and 5. */
  lemma P1ZoneValuesAt27()
    ensures ZoneValuesOf(Initial(P1), 27) == {'3', '5'}
  {
    var s := Initial(P1);
    P1RowAt27();
    P1ColumnAt27();
    P1BoxAt27();
    ZoneValuesWithin(s, 27, {'3', '5'});
    assert s[0].value == '3' && s[32].value == '5';
    ZoneValueOfPeer(s, 27, 0);
    ZoneValueOfPeer(s, 27, 32);
  }

  lemma P1RowAt27()
    ensures ZoneAmong(Initial(P1), RowZone, 27, {'3', '5'})
  {
    var s := Initial(P1);
    forall k | 0 <= k < 9
      ensures 0 <= Member(RowZone, 27, k) < 81 && Member(RowZone, 27, k) != 27 && s[Member(RowZone, 27, k)].value != Blank ==>
        s[Member(RowZone, 27, k)].value in {'3', '5'}
    {
      assert k == 0 || k == 1 || k == 2 || k == 3 || k == 4 || k == 5 || k == 6 || k == 7 || k == 8;
    }
  }

  lemma P1ColumnAt27()
    ensures ZoneAmong(Initial(P1), ColumnZone, 27, {'3', '5'})
  {
    var s := Initial(P1);
    forall k | 0 <= k < 9
      ensures 0 <= Member(ColumnZone, 27, k) < 81 && Member(ColumnZone, 27, k) != 27 && s[Member(ColumnZone, 27, k)].value != Blank ==>
        s[Member(ColumnZone, 27, k)].value in {'3', '5'}
    {
      assert k == 0 || k == 1 || k == 2 || k == 3 || k == 4 || k == 5 || k == 6 || k == 7 || k == 8;
    }
  }

  lemma P1BoxAt27()
    ensures ZoneAmong(Initial(P1), BoxZone, 27, {'3', '5'})
  {
    var s := Initial(P1);
    forall k | 0 <= k < 9
      ensures 0 <= Member(BoxZone, 27, k) < 81 && Member(BoxZone, 27, k) != 27 && s[Member(BoxZone, 27, k)].value != Blank ==>
        s[Member(BoxZone, 27, k)].value in {'3', '5'}
    {
      Div3(k, k / 3, k % 3);
      assert k / 3 == 0 || k / 3 == 1 || k / 3 == 2;
      assert Member(BoxZone, 27, k) in {27, 28, 29, 36, 37, 38, 45, 46, 47};
    }
  }

  /** newsolver.py's zoneCheck tests at cell 2 of the fresh puzzle P1: 1, 2 and
      5 are not hidden singles there, since blank fields 9 (box), 4 (row) and
      20 (column) still have every digit as a candidate. */
  lemma P1ZoneCheckAt2()
    ensures !IsHiddenSingle(Initial(P1), 2, '1')
    ensures !IsHiddenSingle(Initial(P1), 2, '2')
    ensures !IsHiddenSingle(Initial(P1), 2, '5')
  {
    var s := Initial(P1);
    assert s[9].value == Blank && Shares(BoxZone, 2, 9);
    assert s[4].value == Blank && Shares(RowZone, 2, 4);
    assert s[20].value == Blank && Shares(ColumnZone, 2, 20);
  }

  /** Every cell sharing a zone with i is the k-th member of one of i's zones. */
  lemma PeerIsMember(i: nat, j: nat)
    requires i < 81 && j < 81 && SameZone(i, j)
    ensures exists k ::
      0 <= k < 9 && (j == Member(RowZone, i, k) || j == Member(ColumnZone, i, k) || j == Member(BoxZone, i, k))
  {
    if Shares(RowZone, i, j) {
      MemberOnto(RowZone, i, j);
    } else if Shares(ColumnZone, i, j) {
      MemberOnto(ColumnZone, i, j);
    } else {
      MemberOnto(BoxZone, i, j);
    }
  }

  /** The values of the fields of i's zone of kind z, pos excluded, lie in vs. */
  ghost predicate ZoneAmong(s: seq<Field>, z: Zone, i: nat, vs: set<char>)
    requires |s| == 81
  {
    forall k ::
      (0 <= k < 9 && 0 <= Member(z, i, k) < 81 && Member(z, i, k) != i && s[Member(z, i, k)].value != Blank) ==>
      s[Member(z, i, k)].value in vs
  }

  /** The value of an assigned peer j of i is one of i's zone values. */
  lemma ZoneValueOfPeer(s: seq<Field>, i: nat, j: nat)
    requires |s| == 81 && i < 81 && j < 81 && j != i && SameZone(i, j) && s[j].value != Blank
    ensures s[j].value in ZoneValuesOf(s, i)
  {
  }

  /** The zone values of i lie in vs when each of its three zones' values do. */
  lemma ZoneValuesWithin(s: seq<Field>, i: nat, vs: set<char>)
    requires |s| == 81 && i < 81
    requires ZoneAmong(s, RowZone, i, vs) && ZoneAmong(s, ColumnZone, i, vs) && ZoneAmong(s, BoxZone, i, vs)
    ensures ZoneValuesOf(s, i) <= vs
  {
    forall j | 0 <= j < 81 && j != i && SameZone(i, j) && s[j].value != Blank
      ensures s[j].value in vs
    {
      PeerIsMember(i, j);
    }
  }
}
