/**
 * `SettingsManager`: the window's colour theme. Four themes are known by name; applying a known
 * theme restyles the application and records the name, and any other name is ignored.
 */
module Settings {
  import opened Wrappers

  const Light := "Светлая"
  const Dark := "Тёмная"
  const Blue := "Синяя"
  const System := "Системная"

  /** The keys of the `themes` dictionary. */
  const Themes: set<string> := {Light, Dark, Blue, System}

  /** The theme a request for `name` leaves current, starting from `current`. */
  function Select(current: string, name: string): (t: string)
    ensures t == name || t == current
    ensures t == name <==> name in Themes || name == current
  {
    if name in Themes then name else current
  }

  /** Asking twice for the same theme is the same as asking once. */
  lemma SelectIdempotent(current: string, name: string)
    ensures Select(Select(current, name), name) == Select(current, name)
  {
  }

  /** The current theme stays one of the known themes. */
  lemma SelectKeepsKnown(current: string, name: string)
    requires current in Themes
    ensures Select(current, name) in Themes
  {
  }

  /** The theme current after a series of requests. */
  function SelectAll(current: string, names: seq<string>): string {
    if names == [] then current else Select(SelectAll(current, names[..|names| - 1]), names[|names| - 1])
  }

  /** After a series of requests the last known name wins; with none, the theme is unchanged. */
  lemma {:induction false} LastKnownWins(current: string, names: seq<string>)
    ensures var t := SelectAll(current, names);
      (forall k :: 0 <= k < |names| ==> names[k] !in Themes) ==> t == current
    ensures var t := SelectAll(current, names);
      forall k :: 0 <= k < |names| && names[k] in Themes && (forall j :: k < j < |names| ==> names[j] !in Themes) ==>
        t == names[k]
  {
    if names != [] {
      var front, last := names[..|names| - 1], names[|names| - 1];
      LastKnownWins(current, front);
      assert SelectAll(current, names) == Select(SelectAll(current, front), last);
      if last in Themes {
        assert SelectAll(current, names) == last;
      } else {
        assert SelectAll(current, names) == SelectAll(current, front);
        assert forall k :: 0 <= k < |front| ==> front[k] == names[k];
      }
    }
  }

  class SettingsManager {
    var currentTheme: string

    ghost predicate Valid()
      reads this
    {
      currentTheme in Themes
    }

    constructor ()
      ensures currentTheme == Light && Valid()
    {
      currentTheme := Light;
    }

    /** `apply_theme`: restyles with the named theme and records it when the name is known;
        returns the palette it applied to the application, if any. */
    method ApplyTheme(name: string) returns (applied: Option<string>)
      requires Valid()
      modifies this
      ensures Valid()
      ensures applied.Some? <==> name in Themes
      ensures applied.Some? ==> applied.value == name
      ensures currentTheme == Select(old(currentTheme), name)
    {
      if name in Themes {
        applied := Some(name);
        currentTheme := name;
      } else {
        applied := None;
      }
    }
  }
}
