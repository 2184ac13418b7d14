/** The scenario side panel: the dialogue with the learner's current line
    highlighted, the lines already done dimmed and the others dashed when
    they belong to the partner. */
module ScenarioPanel {
  import opened Scenarios

  // ----- Which line is active -----

  /** The positions, from `k` on, of the lines spoken by `role`, in order. */
  function IndicesFrom(lines: seq<ScenarioLine>, role: Speaker, k: nat): (r: seq<nat>)
    requires k <= |lines|
    ensures forall j :: 0 <= j < |r| ==> k <= r[j] < |lines| && lines[r[j]].speaker == role
    ensures forall j, j' :: 0 <= j < j' < |r| ==> r[j] < r[j']
    ensures forall i :: k <= i < |lines| && lines[i].speaker == role ==> i in r
    decreases |lines| - k
  {
    if k == |lines| then []
    else (if lines[k].speaker == role then [k] else []) + IndicesFrom(lines, role, k + 1)
  }

  /** `userLineOriginalIndices`: the positions of the learner's lines. */
  function UserLineIndices(lines: seq<ScenarioLine>, role: Speaker): seq<nat> {
    IndicesFrom(lines, role, 0)
  }

  /** `indices[cursor] ?? -1`: the position of the learner's current line, or
      -1 once the cursor is past (or before) the learner's lines. */
  function ActiveIndex(indices: seq<nat>, cursor: int): int {
    if 0 <= cursor < |indices| then indices[cursor] else -1
  }

  // ----- The rendered lines -----

  /** The frame of a line: the current one, one already translated, or one to come. */
  datatype Highlight = Active | Past | Upcoming

  /** One rendered line: its speaker badge and text, its frame, a dashed border
      for the partner's lines, and the "translate this" hint. */
  datatype LineView = LineView(speaker: Speaker, text: string, highlight: Highlight, dashed: bool, hint: bool)

  function LineAt(lines: seq<ScenarioLine>, role: Speaker, active: int, i: nat): LineView
    requires i < |lines|
  {
    var isMyRole := lines[i].speaker == role;
    var isActive := i == active;
    var isPast := i < active;
    LineView(lines[i].speaker, lines[i].text,
             if isActive then Active else if isPast then Past else Upcoming,
             !isMyRole, isMyRole && isActive)
  }

  /** The dialogue as the panel renders it for the learner's `role` at `cursor`. */
  function PanelLines(s: Scenario, role: Speaker, cursor: int): (r: seq<LineView>)
    ensures |r| == |s.lines|
    ensures forall i :: 0 <= i < |r| ==> r[i].speaker == s.lines[i].speaker && r[i].text == s.lines[i].text
    ensures forall i :: 0 <= i < |r| ==> (r[i].dashed <==> s.lines[i].speaker != role)
  {
    var active := ActiveIndex(UserLineIndices(s.lines, role), cursor);
    seq(|s.lines|, i requires 0 <= i < |s.lines| => LineAt(s.lines, role, active, i))
  }

  /** A role chip in the header: the part's name and whether it is the learner's. */
  datatype RoleChip = RoleChip(caption: string, selected: bool)

  function RoleChips(s: Scenario, role: Speaker): (r: seq<RoleChip>)
    ensures |r| == 2
    ensures r[0].caption == s.roles.a + " (A)" && r[1].caption == s.roles.b + " (B)"
    ensures r[0].selected != r[1].selected
    ensures r[0].selected <==> role == A
  {
    [RoleChip(s.roles.a + " (A)", role == A), RoleChip(s.roles.b + " (B)", role == B)]
  }

  // ----- Properties -----

  /** While the cursor is on one of the learner's lines exactly one line is
      active: the learner's `cursor`-th line, spoken by the learner, and only it
      carries the hint. */
  lemma ExactlyOneActive(s: Scenario, role: Speaker, cursor: int)
    requires 0 <= cursor < |UserLineIndices(s.lines, role)|
    ensures var idx := UserLineIndices(s.lines, role)[cursor];
      var r := PanelLines(s, role, cursor);
      && idx < |r|
      && r[idx].highlight == Active && r[idx].speaker == role && r[idx].hint
      && (forall i :: 0 <= i < |r| && i != idx ==> r[i].highlight != Active && !r[i].hint)
  {
  }

  /** Once the learner's lines are used up nothing is highlighted, nothing is
      dimmed and no hint shows. */
  lemma NothingActiveOutOfRange(s: Scenario, role: Speaker, cursor: int)
    requires !(0 <= cursor < |UserLineIndices(s.lines, role)|)
    ensures var r := PanelLines(s, role, cursor);
      forall i :: 0 <= i < |r| ==> r[i].highlight == Upcoming && !r[i].hint
  {
  }

  /** The lines before the active one are exactly the dimmed ones. */
  lemma PastIsBeforeActive(s: Scenario, role: Speaker, cursor: int)
    requires 0 <= cursor < |UserLineIndices(s.lines, role)|
    ensures var idx := UserLineIndices(s.lines, role)[cursor];
      var r := PanelLines(s, role, cursor);
      forall i :: 0 <= i < |r| ==> (r[i].highlight == Past <==> i < idx)
  {
  }

  /** The hint shows exactly on the active line: the active line always
      belongs to the learner. */
  lemma HintIffActive(s: Scenario, role: Speaker, cursor: int)
    ensures var r := PanelLines(s, role, cursor);
      forall i :: 0 <= i < |r| ==> (r[i].hint <==> r[i].highlight == Active)
  {
    var indices := UserLineIndices(s.lines, role);
    if 0 <= cursor < |indices| {
      assert s.lines[indices[cursor]].speaker == role;
    }
  }

  /** The learner's lines before the active one are the first `cursor` of them,
      so the active line is the learner's `cursor`-th (counting from 0). */
  lemma ActiveIsCursorth(s: Scenario, role: Speaker, cursor: int)
    requires 0 <= cursor < |UserLineIndices(s.lines, role)|
    ensures var indices := UserLineIndices(s.lines, role);
      forall i :: 0 <= i < indices[cursor] && s.lines[i].speaker == role <==> i in indices[..cursor]
  {
    var indices := UserLineIndices(s.lines, role);
    forall i ensures 0 <= i < indices[cursor] && s.lines[i].speaker == role <==> i in indices[..cursor] {
      if 0 <= i < indices[cursor] && s.lines[i].speaker == role {
        var j :| 0 <= j < |indices| && indices[j] == i;
        assert forall j' :: cursor <= j' < |indices| ==> indices[cursor] <= indices[j'];
        assert indices[..cursor][j] == i;
      }
      if i in indices[..cursor] {
        var j :| 0 <= j < cursor && indices[..cursor][j] == i;
        assert indices[j] == i;
      }
    }
  }

  /** Advancing the cursor moves the highlight strictly forward. */
  lemma AdvanceMovesForward(lines: seq<ScenarioLine>, role: Speaker, c1: int, c2: int)
    requires 0 <= c1 < c2 < |UserLineIndices(lines, role)|
    ensures ActiveIndex(UserLineIndices(lines, role), c1) < ActiveIndex(UserLineIndices(lines, role), c2)
  {
  }

  /** Every second position from `first` up to `n`. */
  function Stride(first: nat, n: nat): (r: seq<nat>)
    ensures |r| == if first < n then (n - first + 1) / 2 else 0
    ensures forall j :: 0 <= j < |r| ==> r[j] == first + 2 * j
    decreases n - first
  {
    if first >= n then [] else [first] + Stride(first + 2, n)
  }

  /** In an alternating dialogue a part's lines are every second one, from
      the first position at or after `k` that the part speaks. */
  lemma {:induction false} AlternatingIndices(lines: seq<ScenarioLine>, role: Speaker, k: nat)
    requires Alternating(lines) && k < |lines|
    ensures IndicesFrom(lines, role, k) == Stride(if lines[k].speaker == role then k else k + 1, |lines|)
    decreases |lines| - k
  {
    var n := |lines|;
    if k + 1 == n {
      assert IndicesFrom(lines, role, k + 1) == [];
      if lines[k].speaker == role {
        assert Stride(k, n) == [k] + Stride(k + 2, n);
      }
    } else {
      assert lines[k].speaker != lines[k + 1].speaker;
      AlternatingIndices(lines, role, k + 1);
      if lines[k].speaker == role {
        assert lines[k + 1].speaker != role;
        assert Stride(k, n) == [k] + Stride(k + 2, n);
      } else {
        assert lines[k + 1].speaker == role;
        assert IndicesFrom(lines, role, k) == [] + IndicesFrom(lines, role, k + 1);
      }
    }
  }

  /** In an alternating dialogue that A opens, such as the weekend plan, A
      speaks the even positions and B the odd ones: for thirteen lines, A has
      seven lines and B six. */
  lemma AlternatingTurns(lines: seq<ScenarioLine>)
    requires Alternating(lines) && lines != [] && lines[0].speaker == A
    ensures var a := UserLineIndices(lines, A);
      |a| == (|lines| + 1) / 2 && forall j :: 0 <= j < |a| ==> a[j] == 2 * j
    ensures var b := UserLineIndices(lines, B);
      |b| == |lines| / 2 && forall j :: 0 <= j < |b| ==> b[j] == 2 * j + 1
  {
    AlternatingIndices(lines, A, 0);
    AlternatingIndices(lines, B, 0);
  }

  /** The weekend plan gives A its seven even-numbered lines and B its six odd ones. */
  lemma WeekendPlanTurns()
    ensures |UserLineIndices(WeekendPlan.lines, A)| == 7
    ensures |UserLineIndices(WeekendPlan.lines, B)| == 6
  {
    WeekendPlanAlternates();
    ThirteenLineTurns(WeekendPlan.lines);
  }

  /** Any alternating thirteen-line dialogue that A opens splits seven to six. */
  lemma ThirteenLineTurns(lines: seq<ScenarioLine>)
    requires Alternating(lines) && |lines| == 13 && lines[0].speaker == A
    ensures |UserLineIndices(lines, A)| == 7 && |UserLineIndices(lines, B)| == 6
  {
    AlternatingTurns(lines);
  }
}
