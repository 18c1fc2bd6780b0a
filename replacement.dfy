/** How preg_replace reads its replacement argument. The watcher passes the
    rendered binding as that argument, so the text is a template, not a literal:
    `\\` and `\$` stand for `\` and `$`, and `\n`, `$n`, `${n}` (one or two
    digits) stand for capture group n of the match. The placeholder patterns
    have no capture groups, so group 0 (the matched token) is the only group
    that exists and every other reference expands to nothing. */
module Replacement {
  import opened Results
  import Rendering

  /** The back-reference written at the start of `t`, if any: its group number
      and the number of characters it occupies. */
  function BackrefAt(t: string): (r: Option<(nat, nat)>)
    ensures r.Some? ==> 2 <= r.value.1 <= |t|
  {
    if |t| >= 2 && (t[0] == '\\' || t[0] == '$') && Rendering.IsDigit(t[1]) then
      if |t| >= 3 && Rendering.IsDigit(t[2]) then
        Some((Rendering.DigitValue(t[1]) * 10 + Rendering.DigitValue(t[2]), 3))
      else
        Some((Rendering.DigitValue(t[1]), 2))
    else if |t| >= 4 && t[0] == '$' && t[1] == '{' && Rendering.IsDigit(t[2]) then
      if Rendering.IsDigit(t[3]) then
        if |t| >= 5 && t[4] == '}' then
          Some((Rendering.DigitValue(t[2]) * 10 + Rendering.DigitValue(t[3]), 5))
        else
          None
      else if t[3] == '}' then
        Some((Rendering.DigitValue(t[2]), 4))
      else
        None
    else
      None
  }

  /** The text preg_replace inserts for the replacement template `repl` when
      the pattern matched `whole`. */
  function Expand(repl: string, whole: string): string
    decreases |repl|
  {
    if repl == [] then []
    else if repl[0] == '\\' && |repl| >= 2 && (repl[1] == '\\' || repl[1] == '$') then
      [repl[1]] + Expand(repl[2..], whole)
    else
      match BackrefAt(repl)
      case Some((group, len)) => (if group == 0 then whole else []) + Expand(repl[len..], whole)
      case None => [repl[0]] + Expand(repl[1..], whole)
  }

  /** A template with no backslash and no dollar sign is inserted as it is. */
  lemma {:induction false} ExpandPlain(repl: string, whole: string)
    requires '\\' !in repl && '$' !in repl
    ensures Expand(repl, whole) == repl
    decreases |repl|
  {
    if repl != [] {
      assert repl[0] != '\\' && repl[0] != '$';
      assert BackrefAt(repl).None?;
      assert '\\' !in repl[1..] && '$' !in repl[1..] by {
        forall k | 0 <= k < |repl[1..]| ensures repl[1..][k] == repl[k + 1] { }
      }
      ExpandPlain(repl[1..], whole);
      assert [repl[0]] + repl[1..] == repl;
    }
  }
}
