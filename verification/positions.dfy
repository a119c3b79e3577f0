/** The translation of Transfermarkt's position names into the position codes
    of Sensible World of Soccer (SWOS). */
module Positions {

  /** The SWOS position codes the scraper can emit. `Unknown` is what a
      position name without an entry in the table becomes; it is an ordinary
      value, not an error. */
  datatype SwosPosition = G | D | M | A | LB | RB | LW | RW | Unknown

  /** The text written into the `Position SWOS` column. */
  function Code(p: SwosPosition): (c: string)
    ensures c == "Unknown" <==> p == Unknown
    ensures p != Unknown ==> 1 <= |c| <= 2
  {
    match p
    case G => "G"
    case D => "D"
    case M => "M"
    case A => "A"
    case LB => "LB"
    case RB => "RB"
    case LW => "LW"
    case RW => "RW"
    case Unknown => "Unknown"
  }

  /** The nine texts of the `Position SWOS` column are distinct: the column
      never confuses two positions. */
  lemma CodeInjective(p: SwosPosition, q: SwosPosition)
    ensures Code(p) == Code(q) ==> p == q
  {
  }

  /** The fixed Transfermarkt-to-SWOS table: twelve exact, case-sensitive
      position names. */
  const PositionTable: map<string, SwosPosition> := map[
    "Attacking Midfield" := M, "Central Midfield" := M, "Centre-Back" := D,
    "Centre-Forward" := A, "Defensive Midfield" := M, "Goalkeeper" := G,
    "Left Midfield" := M, "Left Winger" := LW, "Left-Back" := LB,
    "Right Midfield" := M, "Right Winger" := RW, "Right-Back" := RB
  ]

  /** The five midfield names, all of which become `M`. */
  const MidfieldNames: set<string> := {
    "Attacking Midfield", "Central Midfield", "Defensive Midfield",
    "Left Midfield", "Right Midfield"
  }

  /** `position_tm_to_swos.get(text, 'Unknown')`: defined for every text.
      Read backwards, each code has exactly the names listed for it as its
      preimage, and `Unknown` is the preimage of everything off the table.
      Matching is exact, so `goalkeeper` (lower case) is `Unknown`. */
  function Normalise(text: string): (p: SwosPosition)
    ensures p == G <==> text == "Goalkeeper"
    ensures p == D <==> text == "Centre-Back"
    ensures p == A <==> text == "Centre-Forward"
    ensures p == M <==> text in MidfieldNames
    ensures p == LB <==> text == "Left-Back"
    ensures p == RB <==> text == "Right-Back"
    ensures p == LW <==> text == "Left Winger"
    ensures p == RW <==> text == "Right Winger"
    ensures p == Unknown <==> text !in PositionTable
  {
    if text in PositionTable then PositionTable[text] else Unknown
  }

  /** The table never produces `Unknown`, and every other code is reached by
      at least one name. */
  lemma TableShape()
    ensures Unknown !in PositionTable.Values
    ensures forall p :: p != Unknown ==> p in PositionTable.Values
  {
    assert PositionTable["Goalkeeper"] == G;
    assert PositionTable["Centre-Back"] == D;
    assert PositionTable["Central Midfield"] == M;
    assert PositionTable["Centre-Forward"] == A;
    assert PositionTable["Left-Back"] == LB;
    assert PositionTable["Right-Back"] == RB;
    assert PositionTable["Left Winger"] == LW;
    assert PositionTable["Right Winger"] == RW;
  }
}
