/**
 * The dark/light theme switch of main/static/main/js/theme-toggle.js: the
 * `data-theme` attribute of the document element, the theme kept in
 * `localStorage`, and the icon and label of the `#theme-toggle` button.
 * `localStorage` and the `prefers-color-scheme` media query are fields and
 * parameters; console logging and `preventDefault` are not modelled.
 */
module ThemeToggle {
  import opened Wrappers

  const DARK: string := "dark"
  const LIGHT: string := "light"
  const SUN: string := "fa-sun"
  const MOON: string := "fa-moon"
  const TO_LIGHT_LABEL: string := "Switch to Light Mode"
  const TO_DARK_LABEL: string := "Switch to Dark Mode"

  /**
   * The `#theme-toggle` button: the classes of its `<i>` icon (None when it
   * has no icon) and its `aria-label`.
   */
  datatype ToggleButton = ToggleButton(icon: Option<ClassList>, ariaLabel: Option<string>)

  /** The classes of an element. */
  type ClassList = set<string>

  /** `newTheme` in `toggleTheme`: dark becomes light, anything else (light, unset, unknown) becomes dark. */
  function Toggled(current: Option<string>): (r: string)
    ensures r == DARK || r == LIGHT
    ensures (current == Some(DARK) || current == Some(LIGHT)) ==> current != Some(r)
  {
    if current == Some(DARK) then LIGHT else DARK
  }

  /** Toggling twice from dark or from light comes back to it; from anything else it ends on light. */
  lemma ToggleTwice(current: Option<string>)
    ensures current == Some(DARK) || current == Some(LIGHT) ==> Toggled(Some(Toggled(current))) == current.value
    ensures current != Some(DARK) && current != Some(LIGHT) ==> Toggled(Some(Toggled(current))) == LIGHT
  {
    assert DARK != LIGHT by { assert |DARK| != |LIGHT|; }
  }

  /** The icon and label agree with the theme: a sun offering light mode when dark, a moon otherwise. */
  predicate ShowsTheme(b: Option<ToggleButton>, theme: string) {
    b.Some? && b.value.icon.Some? ==>
      if theme == DARK then
        SUN in b.value.icon.value && MOON !in b.value.icon.value && b.value.ariaLabel == Some(TO_LIGHT_LABEL)
      else
        MOON in b.value.icon.value && SUN !in b.value.icon.value && b.value.ariaLabel == Some(TO_DARK_LABEL)
  }

  /** `updateIcon(theme)`: nothing happens without the button or without its icon. */
  function IconUpdated(b: Option<ToggleButton>, theme: string): (r: Option<ToggleButton>)
    ensures b.None? || b.value.icon.None? ==> r == b
    ensures r.Some? == b.Some? && (r.Some? ==> r.value.icon.Some? == b.value.icon.Some?)
    ensures r.Some? && r.value.icon.Some? ==> r.value.icon.value - {SUN, MOON} == b.value.icon.value - {SUN, MOON}
    ensures ShowsTheme(r, theme)
  {
    assert SUN != MOON by { assert |SUN| != |MOON|; }
    if b.None? || b.value.icon.None? then b
    else if theme == DARK then
      Some(ToggleButton(Some(b.value.icon.value - {MOON} + {SUN}), Some(TO_LIGHT_LABEL)))
    else
      Some(ToggleButton(Some(b.value.icon.value - {SUN} + {MOON}), Some(TO_DARK_LABEL)))
  }

  /** Updating the icon for the same theme twice is updating it once. */
  lemma IconUpdateIdempotent(b: Option<ToggleButton>, theme: string)
    ensures IconUpdated(IconUpdated(b, theme), theme) == IconUpdated(b, theme)
  {
    assert SUN != MOON by { assert |SUN| != |MOON|; }
    if b.Some? && b.value.icon.Some? {
      var c := b.value.icon.value;
      if theme == DARK {
        assert c - {MOON} + {SUN} - {MOON} + {SUN} == c - {MOON} + {SUN};
      } else {
        assert c - {SUN} + {MOON} - {SUN} + {MOON} == c - {SUN} + {MOON};
      }
    }
  }

  /**
   * The theme chosen on load: a saved theme wins (an empty string counts as
   * none), otherwise a dark preference picks dark, otherwise the attribute
   * stays as the page set it.
   */
  function InitialTheme(current: Option<string>, saved: Option<string>, prefersDark: bool): (r: Option<string>)
    ensures saved.Some? && saved.value != "" ==> r == saved
    ensures !(saved.Some? && saved.value != "") && prefersDark ==> r == Some(DARK)
    ensures LoadSetsTheme(saved, prefersDark) ==> r.Some? && r.value != ""
    ensures !LoadSetsTheme(saved, prefersDark) ==> r == current
  {
    if saved.Some? && saved.value != "" then saved
    else if prefersDark then Some(DARK)
    else current
  }

  /** Whether the load handler sets the theme at all. */
  predicate LoadSetsTheme(saved: Option<string>, prefersDark: bool) {
    (saved.Some? && saved.value != "") || prefersDark
  }

  /** A toggled theme survives a reload: whatever the preference and the page's own attribute, the next load shows it. */
  lemma ToggleSurvivesReload(current: Option<string>, pageTheme: Option<string>, prefersDark: bool)
    ensures LoadSetsTheme(Some(Toggled(current)), prefersDark)
    ensures InitialTheme(pageTheme, Some(Toggled(current)), prefersDark) == Some(Toggled(current))
  {
    assert Toggled(current) != "" by { assert |Toggled(current)| > 0; }
  }

  /** The document element, the browser's storage and the toggle button. */
  class ThemePage {
    /** The `data-theme` attribute of `<html>`, None when absent. */
    var theme: Option<string>
    /** `localStorage.getItem('theme')`. */
    var saved: Option<string>
    /** `document.getElementById('theme-toggle')`. */
    var button: Option<ToggleButton>

    constructor (theme: Option<string>, saved: Option<string>, button: Option<ToggleButton>)
      ensures this.theme == theme && this.saved == saved && this.button == button
    {
      this.theme := theme;
      this.saved := saved;
      this.button := button;
    }

    /** `updateIcon`. */
    method UpdateIcon(t: string)
      modifies this
      ensures button == IconUpdated(old(button), t)
      ensures ShowsTheme(button, t)
      ensures theme == old(theme) && saved == old(saved)
    {
      if button.None? {
        return;
      }
      if button.value.icon.None? {
        return;
      }
      var classes := button.value.icon.value;
      if t == DARK {
        classes := classes - {MOON};
        classes := classes + {SUN};
        button := Some(ToggleButton(Some(classes), Some(TO_LIGHT_LABEL)));
      } else {
        classes := classes - {SUN};
        classes := classes + {MOON};
        button := Some(ToggleButton(Some(classes), Some(TO_DARK_LABEL)));
      }
    }

    /** `toggleTheme`: flips the theme, stores it, and updates the icon to match. */
    method ToggleTheme()
      modifies this
      ensures theme == Some(Toggled(old(theme)))
      ensures saved == theme
      ensures button == IconUpdated(old(button), theme.value)
      ensures ShowsTheme(button, theme.value)
    {
      var newTheme := Toggled(theme);
      theme := Some(newTheme);
      saved := Some(newTheme);
      UpdateIcon(newTheme);
    }

    /** The `DOMContentLoaded` handler, given whether the browser prefers a dark scheme. */
    method InitialLoad(prefersDark: bool)
      modifies this
      ensures theme == InitialTheme(old(theme), old(saved), prefersDark)
      ensures saved == old(saved)
      ensures LoadSetsTheme(old(saved), prefersDark) ==> theme.Some? && button == IconUpdated(old(button), theme.value)
      ensures !LoadSetsTheme(old(saved), prefersDark) ==> button == old(button)
    {
      var savedTheme := saved;
      if savedTheme.Some? && savedTheme.value != "" {
        theme := savedTheme;
        UpdateIcon(savedTheme.value);
      } else if prefersDark {
        theme := Some(DARK);
        UpdateIcon(DARK);
      }
    }
  }
}
