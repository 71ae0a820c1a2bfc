/** The colour theme: "dark" or "light", remembered by the browser between visits. */
module Theme {

  /** What the browser store returns for the theme key: nothing, or a string. */
  datatype Stored = Absent | Present(value: string)

  /** The theme on mount: the stored string, or "dark" when it is missing or empty. */
  function Initial(stored: Stored): (t: string)
    ensures t != ""
    ensures stored.Present? && stored.value != "" ==> t == stored.value
    ensures stored.Absent? || stored.value == "" ==> t == "dark"
  {
    match stored
    case Absent => "dark"
    case Present(v) => if v == "" then "dark" else v
  }

  /** The theme button: dark becomes light, anything else becomes dark. */
  function Toggle(t: string): (r: string)
    ensures r == "dark" || r == "light"
    ensures (t == "dark" || t == "light") ==> r != t
  {
    if t == "dark" then "light" else "dark"
  }

  /** Toggling twice restores a dark or light theme. */
  lemma ToggleTwice(t: string)
    requires t == "dark" || t == "light"
    ensures Toggle(Toggle(t)) == t
  {
  }

  /** A stored theme that is neither dark nor light is lost by the first toggle. */
  lemma ToggleNormalises(t: string)
    requires t != "dark" && t != "light"
    ensures Toggle(t) == "dark" && Toggle(Toggle(t)) == "light"
  {
  }
}
