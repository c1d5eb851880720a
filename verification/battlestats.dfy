/**
 The battle-royale statistics a user can look up (`Cogs/battleroyale.py`):
 the name shown by `check` for each database field, and the label shown for
 each ranking command. Both are total lookups that answer `None` for
 anything else.
 */
module BattleStats {
  import opened Wrappers

  /** The database fields the battle royale adds to a user entry. */
  const Aspects: set<string> := {"brs", "br_wins", "br_score", "br_winnings"}

  /** `get_check_message_for_aspect`. */
  function CheckMessage(aspect: string): (r: Option<string>)
    ensures r.Some? <==> aspect in Aspects
  {
    if aspect == "brs" then Some("Battle royales fought")
    else if aspect == "br_wins" then Some("Battle royale wins")
    else if aspect == "br_score" then Some("Total battle royale score")
    else if aspect == "br_winnings" then Some("Total battle royale winnings")
    else None
  }

  /** `get_label_for_command`. */
  function CommandLabel(command: string): (r: Option<string>)
    ensures r.Some? <==> command in Aspects
  {
    if command == "br_wins" then Some("battle royale wins")
    else if command == "br_score" then Some("battle royale score")
    else if command == "br_winnings" then Some("total battle royale winnings")
    else if command == "brs" then Some("battle royales fought in")
    else None
  }

  /** Both lookups name each field differently, so a message or label
      identifies its field. */
  lemma LookupsAreInjective(a: string, b: string)
    requires a in Aspects && b in Aspects && a != b
    ensures CheckMessage(a) != CheckMessage(b)
    ensures CommandLabel(a) != CommandLabel(b)
  {
  }
}
