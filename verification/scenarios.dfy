/** The practice scenarios: scripted two-person dialogues whose lines the
    learner translates into Japanese, one line of their chosen role at a time. */
module Scenarios {
  /** The two parts of a dialogue. */
  datatype Speaker = A | B

  datatype ScenarioLine = ScenarioLine(speaker: Speaker, text: string)

  /** The display names of the two parts. */
  datatype Roles = Roles(a: string, b: string)

  datatype Scenario = Scenario(id: string, title: string, description: string, roles: Roles, lines: seq<ScenarioLine>)

  /** The part's single-letter name as the code spells it. */
  function SpeakerName(s: Speaker): (r: string)
    ensures |r| == 1
    ensures r == "A" <==> s == A
  {
    match s
    case A => "A"
    case B => "B"
  }

  /** The name shown for a part. */
  function RoleName(roles: Roles, s: Speaker): string {
    match s
    case A => roles.a
    case B => roles.b
  }

  const WeekendPlan := Scenario(
    "weekend-plan",
    "討論週末計畫",
    "兩個朋友在討論週末要去哪裡玩、吃什麼",
    Roles("友人A", "友人B"),
    [
      ScenarioLine(A, "欸，這禮拜六你有空嗎？如果有時間的話，要不要一起去哪裡玩？"),
      ScenarioLine(B, "禮拜六喔？下午應該有空，但早上我有點事。"),
      ScenarioLine(A, "是喔。你要幹嘛？"),
      ScenarioLine(B, "因為最近都沒什麼運動，所以想去健身房游泳。"),
      ScenarioLine(A, "游完泳之後要不要一起吃午餐？車站前面的義大利餐廳。"),
      ScenarioLine(B, "啊，那間喔！我去過一次，披薩超好吃的。"),
      ScenarioLine(A, "真的嗎？那就吃那間吧。"),
      ScenarioLine(B, "不過那間店週末很多人，如果不早點去的話可能沒位置。"),
      ScenarioLine(A, "了解。那就12 點半在車站見喔。別遲到喔。"),
      ScenarioLine(B, "放心啦。會遲到的話，我會再聯絡你！"),
      ScenarioLine(A, "OK。對了，你會喝酒嗎？"),
      ScenarioLine(B, "會啊，滿喜歡的。但下午就喝的話會想睡覺，所以喝一點點就好。"),
      ScenarioLine(A, "也是。那就當天見啦！")
    ])

  /** Every scenario the practice page offers. */
  const All: seq<Scenario> := [WeekendPlan]

  /** Consecutive lines are spoken by different parts. */
  predicate Alternating(lines: seq<ScenarioLine>) {
    forall i, j :: 0 <= i < |lines| && j == i + 1 < |lines| ==> lines[i].speaker != lines[j].speaker
  }

  /** The dialogue alternates between the two parts, starting with A, and
      ends on A. */
  lemma WeekendPlanAlternates()
    ensures |WeekendPlan.lines| == 13 && WeekendPlan.lines[0].speaker == A
    ensures Alternating(WeekendPlan.lines)
  {
  }

  /** The list is not empty, so the page always has a default scenario: the
      weekend plan between 友人A and 友人B. */
  lemma ScenarioListShape()
    ensures All != [] && All[0].id == "weekend-plan"
    ensures All[0].roles == Roles("友人A", "友人B")
  {
  }
}
