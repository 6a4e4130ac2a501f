/** The filter every displayed registry name passes through. */
module Sanitize {
  predicate IsControl(c: char) {
    c as int <= 0x1F || c as int == 0x7F || 0x80 <= c as int <= 0x9F
  }

  /** The characters of the general category Cc of Unicode. */
  lemma ControlsAre(c: char)
    ensures IsControl(c) <==> c < ' ' || '\U{7F}' <= c <= '\U{9F}'
  {
  }

  predicate Clean(s: string) {
    forall i | 0 <= i < |s| :: !IsControl(s[i])
  }

  /** Drops the control characters and keeps every other character as often as
      it was there; text without control characters is returned as it is. */
  function SanitizeDisplay(s: string): (r: string)
    ensures Clean(r)
    ensures Clean(s) ==> r == s
    ensures forall c :: multiset(r)[c] == if IsControl(c) then 0 else multiset(s)[c]
  {
    if |s| == 0 then s
    else
      assert s == [s[0]] + s[1..];
      var rest := SanitizeDisplay(s[1..]);
      if IsControl(s[0]) then rest else [s[0]] + rest
  }

  /** Sanitizing works character by character, so the order of what is kept is
      the order it had. */
  lemma {:induction false} SanitizeConcat(s: string, t: string)
    ensures SanitizeDisplay(s + t) == SanitizeDisplay(s) + SanitizeDisplay(t)
  {
    if |s| == 0 {
      assert s + t == t;
    } else {
      assert (s + t)[1..] == s[1..] + t;
      SanitizeConcat(s[1..], t);
    }
  }

  /** Strips one "id=" from the front, if there is one. */
  function CleanNodeId(id: string): (r: string)
    ensures id == (if |r| == |id| then "" else "id=") + r
    ensures "id=" <= id ==> |r| < |id|
  {
    if "id=" <= id then id[3..] else id
  }

  /** The identifier of a discovered service, from its raw text property. */
  function EntryId(raw: string): string {
    SanitizeDisplay(CleanNodeId(raw))
  }
}
