/** The practice page: the chosen mode, scenario and role, and the key that
    makes the chat area start afresh whenever any of them changes. */
module PracticePage {
  import opened Wrappers
  import opened Scenarios

  datatype Mode = Free | ScenarioMode

  /** The mode's value in the selector. */
  function ModeName(m: Mode): (r: string)
    ensures r != [] && (r[0] == 'f' <==> m == Free)
  {
    match m
    case Free => "free"
    case ScenarioMode => "scenario"
  }

  /** `scenarios.find(s => s.id === id)`: the first scenario with that id. */
  function Find(list: seq<Scenario>, id: string): (r: Option<Scenario>)
    ensures r.None? <==> forall i :: 0 <= i < |list| ==> list[i].id != id
    ensures r.Some? ==> exists i :: 0 <= i < |list| && list[i] == r.value && r.value.id == id
                          && forall j :: 0 <= j < i ==> list[j].id != id
  {
    if list == [] then None
    else if list[0].id == id then Some(list[0])
    else
      var rest := Find(list[1..], id);
      if rest.Some? then
        assert forall i :: 1 <= i < |list| ==> list[i] == list[1..][i - 1];
        rest
      else rest
  }

  /** The remount key `${mode}-${id}-${role}`. */
  function Key(m: Mode, id: string, r: Speaker): string {
    ModeName(m) + "-" + id + "-" + SpeakerName(r)
  }

  /** Different selections give different keys, so every change of mode,
      scenario or role gives the chat area a fresh state. */
  lemma KeyInjective(m1: Mode, id1: string, r1: Speaker, m2: Mode, id2: string, r2: Speaker)
    requires Key(m1, id1, r1) == Key(m2, id2, r2)
    ensures m1 == m2 && id1 == id2 && r1 == r2
  {
    var k := Key(m1, id1, r1);
    var n1, n2 := SpeakerName(r1), SpeakerName(r2);
    assert k[|k| - 1] == n1[0] && k[|k| - 1] == n2[0];
    assert n1 == [n1[0]] && n2 == [n2[0]];
    assert k[0] == ModeName(m1)[0] && k[0] == ModeName(m2)[0];
    var front := k[..|k| - 2];
    assert front == ModeName(m1) + "-" + id1;
    assert front == ModeName(m2) + "-" + id2;
    assert id1 == front[|ModeName(m1)| + 1..];
    assert id2 == front[|ModeName(m2)| + 1..];
  }

  /** The page's three selection fields. */
  class PracticePage {
    var mode: Mode
    var selected: Scenario
    var role: Speaker

    /** Free conversation, the first scenario and role A. */
    constructor ()
      ensures mode == Free && selected == All[0] && role == A
    {
      mode := Free;
      selected := All[0];
      role := A;
    }

    /** The mode selector changes only the mode. */
    method ChooseMode(m: Mode)
      modifies this
      ensures mode == m && selected == old(selected) && role == old(role)
      ensures m == Free ==> ChatScenario() == None
      ensures m == ScenarioMode ==> ChatScenario() == Some(old(selected))
    {
      mode := m;
    }

    /** The scenario selector: the scenario with that id, or no change when
        there is none. */
    method ChooseScenario(id: string)
      modifies this
      ensures Find(All, id).Some? ==> selected == Find(All, id).value
      ensures Find(All, id).None? ==> selected == old(selected)
      ensures mode == old(mode) && role == old(role)
      ensures mode == ScenarioMode && Find(All, id).Some? ==> ChatScenario() == Find(All, id)
    {
      var found := Find(All, id);
      if found.Some? {
        selected := found.value;
      }
    }

    /** The role buttons change only the role. */
    method ChooseRole(r: Speaker)
      modifies this
      ensures role == r && mode == old(mode) && selected == old(selected)
      ensures ChatKey() == old(ChatKey()) <==> r == old(role)
    {
      RoleSwitchRemounts(mode, selected.id, role, r);
      role := r;
    }

    /** The key the chat area is mounted under. */
    function ChatKey(): string
      reads this
    {
      Key(mode, selected.id, role)
    }

    /** The scenario handed to the chat area: only in scenario mode. */
    function ChatScenario(): Option<Scenario>
      reads this
    {
      if mode == ScenarioMode then Some(selected) else None
    }
  }

  /** Choosing a role the page already has keeps the key; choosing the other
      one changes it. */
  lemma RoleSwitchRemounts(m: Mode, id: string, r1: Speaker, r2: Speaker)
    ensures Key(m, id, r1) == Key(m, id, r2) <==> r1 == r2
  {
    if Key(m, id, r1) == Key(m, id, r2) {
      KeyInjective(m, id, r1, m, id, r2);
    }
  }

  /** The selector finds the weekend plan by its id; any other id finds nothing. */
  lemma FindInScenarioList(id: string)
    ensures Find(All, id) == if id == "weekend-plan" then Some(WeekendPlan) else None
  {
    assert All == [WeekendPlan];
    assert Find(All, id) == (if WeekendPlan.id == id then Some(WeekendPlan) else Find([], id));
  }
}
