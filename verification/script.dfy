/** The dialogue script the language model produces: an ordered list of JSON
    objects with a `speaker` and a `text` key. */
module Script {
  import opened Results
  import opened Text

  /** One turn of the script; either key may be missing from the object. */
  datatype Turn = Turn(speaker: Option<string>, text: Option<string>)

  /** The spoken text of a turn: `turn.get("text") or ""`. */
  function TextOf(t: Turn): string {
    t.text.GetOr([])
  }

  /** The host test every part of the program applies to a turn:
      `(turn.get("speaker") or "").lower() == "host"`. */
  predicate IsHostTurn(t: Turn) {
    LowerAll(t.speaker.GetOr([])) == "host"
  }

  /** A turn belongs to the host exactly when its speaker is "host" in any
      mix of upper and lower case; a missing speaker is never the host. */
  lemma HostTurnIgnoresCase(t: Turn)
    ensures IsHostTurn(t) <==> t.speaker.Some? && EqualsIgnoreCase(t.speaker.value, "host")
  {
    var s := t.speaker.GetOr([]);
    if EqualsIgnoreCase(s, "host") {
      assert LowerAll(s) == "host";
    }
    if IsHostTurn(t) {
      assert forall i | 0 <= i < |s| :: Lower(s[i]) == LowerAll(s)[i];
    }
  }
}
