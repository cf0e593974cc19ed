/** The theme toggle: the next stored preference as a function of the
    current one, and what the selector renders. A preference is the text
    stored under the theme key, `None` when nothing is stored ("auto"). */
module ThemeSelector {
  import opened Common

  const Light := "light"
  const Dark := "dark"

  /** Nothing stored, or the empty string: both count as "auto". */
  predicate IsAuto(p: Option<string>) {
    p.None? || p.value == ""
  }

  /** `handleToggle`: auto becomes light, light becomes dark, and any other
      stored value returns to auto. */
  function NextPreference(stored: Option<string>): (r: Option<string>)
    ensures IsAuto(stored) <==> r == Some(Light)
    ensures stored == Some(Light) <==> r == Some(Dark)
    ensures r.None? <==> !IsAuto(stored) && stored != Some(Light)
  {
    if IsAuto(stored) then Some(Light)
    else if stored.value == Light then Some(Dark)
    else None
  }

  /** The three preferences the toggle moves between. */
  predicate InCycle(p: Option<string>) {
    p == None || p == Some(Light) || p == Some(Dark)
  }

  /** One toggle always lands on one of the three preferences. */
  lemma ToggleEntersCycle(p: Option<string>)
    ensures InCycle(NextPreference(p))
    ensures InCycle(p) ==> InCycle(NextPreference(p)) && NextPreference(p) != p
  {
  }

  /** auto, light and dark follow one another, and three toggles bring a
      preference back exactly when it is one of those three. */
  lemma ThreeTogglesReturn(p: Option<string>)
    ensures NextPreference(NextPreference(NextPreference(p))) == p <==> InCycle(p)
  {
    if !InCycle(p) {
      if IsAuto(p) {
        assert NextPreference(NextPreference(NextPreference(p))) == None;
      } else {
        assert NextPreference(NextPreference(NextPreference(p))) == Some(Dark);
      }
    }
  }

  /** The selector's output. Opacities are percentages. */
  datatype Rendered =
    | NothingYet
    | IconToggle(lightOpacity: nat, darkOpacity: nat)
    | TextButton(caption: string)

  /** An icon is fully opaque when its theme is the current one, faint
      otherwise. */
  function IconOpacity(current: Option<string>, icon: string): (r: nat)
    ensures r == 100 <==> current == Some(icon)
    ensures r == 30 <==> current != Some(icon)
  {
    if current == Some(icon) then 100 else 30
  }

  /** The text button reads "Lys" when the current theme is light and
      "Mørk" otherwise. */
  function TextLabel(current: Option<string>): (r: string)
    ensures r == "Lys" <==> current == Some(Light)
    ensures r == "Mørk" <==> current != Some(Light)
  {
    if current == Some(Light) then "Lys" else "Mørk"
  }

  /** Nothing before mount; then the two-icon toggle when asked for icons,
      and the text button otherwise. */
  function Render(mounted: bool, showIcon: bool, current: Option<string>): (r: Rendered)
    ensures r.NothingYet? <==> !mounted
    ensures r.IconToggle? <==> mounted && showIcon
    ensures r.IconToggle? ==> r.lightOpacity == IconOpacity(current, Light)
    ensures r.IconToggle? ==> r.darkOpacity == IconOpacity(current, Dark)
    ensures r.TextButton? ==> r.caption == TextLabel(current)
  {
    if !mounted then NothingYet
    else if showIcon then IconToggle(IconOpacity(current, Light), IconOpacity(current, Dark))
    else TextButton(TextLabel(current))
  }

  /** At most one icon is fully opaque, and exactly one when the current
      theme is light or dark. */
  lemma AtMostOneIconHighlighted(current: Option<string>)
    ensures var r := Render(true, true, current);
      !(r.lightOpacity == 100 && r.darkOpacity == 100)
      && (r.lightOpacity == 100 || r.darkOpacity == 100 <==> current == Some(Light) || current == Some(Dark))
  {
  }
}
