/** missionaries.py: three missionaries and three cannibals cross a river in
    a boat that holds two; cannibals may never outnumber missionaries on a
    bank where missionaries stand. */
module Missionaries {
  import opened Wrappers
  import opened SearchNodes
  import opened GenericSearch

  /** `MAX_NUM`: the number of missionaries, and of cannibals. */
  const MaxNum: int := 3

  /** `MCState`: the missionaries and cannibals on the west bank, and
      whether the boat is on the west bank. The east-bank counts follow. */
  datatype MCState = MCState(wm: int, wc: int, boat: bool) {

    /** `em`: the missionaries on the east bank. */
    function Em(): int {
      MaxNum - wm
    }

    /** `ec`: the cannibals on the east bank. */
    function Ec(): int {
      MaxNum - wc
    }

    /** `is_legal`: on neither bank are missionaries present and
        outnumbered by cannibals. */
    predicate IsLegal() {
      !(wm < wc && wm > 0) && !(Em() < Ec() && Em() > 0)
    }

    /** `goal_test`: a legal state with everyone on the east bank. */
    predicate GoalTest() {
      IsLegal() && Em() == MaxNum && Ec() == MaxNum
    }

    /** The five boat loads `successors` tries, in order, before the
        illegal results are dropped. */
    function Candidates(): seq<MCState> {
      if boat then
        (if wm > 1 then [MCState(wm - 2, wc, !boat)] else [])
        + (if wm > 0 then [MCState(wm - 1, wc, !boat)] else [])
        + (if wc > 1 then [MCState(wm, wc - 2, !boat)] else [])
        + (if wc > 0 then [MCState(wm, wc - 1, !boat)] else [])
        + (if wc > 0 && wm > 0 then [MCState(wm - 1, wc - 1, !boat)] else [])
      else
        (if Em() > 1 then [MCState(wm + 2, wc, !boat)] else [])
        + (if Em() > 0 then [MCState(wm + 1, wc, !boat)] else [])
        + (if Ec() > 1 then [MCState(wm, wc + 2, !boat)] else [])
        + (if Ec() > 0 then [MCState(wm, wc + 1, !boat)] else [])
        + (if Ec() > 0 && Em() > 0 then [MCState(wm + 1, wc + 1, !boat)] else [])
    }

    /** `successors`: the legal states one crossing away. */
    function Successors(): (r: seq<MCState>)
      ensures forall x :: x in r <==> x.IsLegal() && Crossing(this, x)
    {
      CandidatesAreCrossings(this); KeepLegal(Candidates())
    }
  }

  /** `[x for x in sucs if x.is_legal]` */
  function KeepLegal(s: seq<MCState>): (r: seq<MCState>)
    ensures forall x :: x in r <==> x in s && x.IsLegal()
  {
    if |s| == 0 then []
    else (if s[0].IsLegal() then [s[0]] else []) + KeepLegal(s[1..])
  }

  /** One crossing: the boat changes banks carrying one or two people, `m`
      missionaries and `c` cannibals, each group no larger than it was on
      the bank the boat leaves. */
  ghost predicate Crossing(s: MCState, x: MCState) {
    x.boat == !s.boat &&
    var (m, c) := if s.boat then (s.wm - x.wm, s.wc - x.wc) else (x.wm - s.wm, x.wc - s.wc);
    var (hm, hc) := if s.boat then (s.wm, s.wc) else (s.Em(), s.Ec());
    && 0 <= m && 0 <= c && 1 <= m + c <= 2
    && (m == 0 || m <= hm) && (c == 0 || c <= hc)
  }

  /** The boat loads tried are exactly the crossings. */
  lemma {:induction false} CandidatesAreCrossings(s: MCState)
    ensures forall x :: x in s.Candidates() <==> Crossing(s, x)
  {
    forall x | x in s.Candidates() ensures Crossing(s, x) {
      var (m, c) := if s.boat then (s.wm - x.wm, s.wc - x.wc) else (x.wm - s.wm, x.wc - s.wc);
      assert (m, c) == (2, 0) || (m, c) == (1, 0) || (m, c) == (0, 2) || (m, c) == (0, 1) || (m, c) == (1, 1);
    }
    forall x | Crossing(s, x) ensures x in s.Candidates() {
      var (m, c) := if s.boat then (s.wm - x.wm, s.wc - x.wc) else (x.wm - s.wm, x.wc - s.wc);
      var d := if s.boat then -1 else 1;
      assert x == MCState(s.wm + d * m, s.wc + d * c, !s.boat);
      assert (m, c) == (2, 0) || (m, c) == (1, 0) || (m, c) == (0, 2) || (m, c) == (0, 1) || (m, c) == (1, 1);
    }
  }

  /** Both banks hold between none and all of each group. */
  predicate InRange(s: MCState) {
    0 <= s.wm <= MaxNum && 0 <= s.wc <= MaxNum
  }

  /** From a state in range every successor is in range: the guards of
      `successors` keep the counts between 0 and `MAX_NUM`. Every
      successor is legal and has the boat on the other bank. */
  lemma {:induction false} SuccessorsStayInRange(s: MCState)
    requires InRange(s)
    ensures forall x :: x in s.Successors() ==> InRange(x) && x.IsLegal() && x.boat == !s.boat
  {
  }

  /** The successor function as the search engine receives it. */
  function Moves(): MCState -> seq<MCState> {
    (s: MCState) => s.Successors()
  }

  /** The 32 states in range. */
  ghost function AllStates(): (u: set<MCState>)
    ensures forall s :: s in u <==> InRange(s)
  {
    set wm, wc, b: bool | 0 <= wm <= MaxNum && 0 <= wc <= MaxNum :: MCState(wm, wc, b)
  }

  /** The states in range are closed under `successors`. */
  lemma {:induction false} AllStatesClosed()
    ensures ClosedUnder(AllStates(), Moves())
  {
    forall x, i | x in AllStates() && 0 <= i < |Moves()(x)| ensures Moves()(x)[i] in AllStates() {
      SuccessorsStayInRange(x);
      assert Moves()(x)[i] in x.Successors();
    }
  }

  /** The start of the demo: everyone and the boat on the west bank. */
  const Start: MCState := MCState(MaxNum, MaxNum, true)

  /** A crossing plan in eleven trips. */
  const Plan: seq<MCState> := [
    MCState(3, 3, true), MCState(3, 1, false), MCState(3, 2, true), MCState(3, 0, false),
    MCState(3, 1, true), MCState(1, 1, false), MCState(2, 2, true), MCState(0, 2, false),
    MCState(0, 3, true), MCState(0, 1, false), MCState(0, 2, true), MCState(0, 0, false)]

  /** The puzzle has a solution: the plan is a walk of legal crossings from
      the start to the goal. */
  lemma {:induction false} PlanSolvesPuzzle()
    ensures IsPathFrom(Start, Moves(), Plan) && Plan[|Plan| - 1].GoalTest()
  {
    forall i | 0 <= i < |Plan| - 1 ensures Plan[i + 1] in Moves()(Plan[i]) {
      assert Plan[i + 1].IsLegal() && Crossing(Plan[i], Plan[i + 1]);
    }
  }

  /** The demo: breadth-first search from the start finds a node whose
      state is the goal, reached by a walk of legal crossings that is no
      longer than the eleven-crossing plan. */
  method Solve() returns (r: Option<Node<MCState>>)
    ensures r.Some?
    ensures r.Some? ==> r.value.state.GoalTest() && IsPathFrom(Start, Moves(), Path(r.value))
    ensures r.Some? ==> |Path(r.value)| - 1 <= 11
  {
    AllStatesClosed();
    var pushed, expansions;
    r, pushed, expansions := Bfs(Start, (s: MCState) => s.GoalTest(), Moves(), AllStates());
    PlanSolvesPuzzle();
  }
}
