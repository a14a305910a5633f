/**
 * The editor's play-mode menu: two checkmarks that toggle bits of the
 * editor's enter-play-mode options, and the availability of the
 * "reload dirty types" item.
 */
module MenuUtils {
  /** Unity's `EnterPlayModeOptions` flags. */
  const DisableDomainReload: bv32 := 1
  const DisableSceneReload: bv32 := 2

  const ToggleDomainReloadingPath := "Reloads/Enter Play Mode Options/Reload Domain"
  const ToggleSceneReloadingPath := "Reloads/Enter Play Mode Options/Reload Scene"
  const ForceReloadDomainPath := "Reloads/Reload Domain"
  const ForceReloadDirtyTypesPath := "Reloads/Reload Dirty Types"

  /** The two editor settings the menu reads and writes. */
  datatype Settings = Settings(enabled: bool, options: bv32)

  /** `HasEnterPlayModeOptions`: the options are in force and share a bit with `f`. */
  predicate Has(s: Settings, f: bv32)
  {
    s.enabled && s.options & f != 0
  }

  /**
   * `ToggleEnterPlayModeOptions`: turning the options on starts from exactly
   * `f`; once they are on, the bits of `f` are flipped and no others.
   */
  function Toggle(s: Settings, f: bv32): (r: Settings)
    ensures r.enabled
    ensures !s.enabled ==> r.options == f
    ensures s.enabled ==> r.options & !f == s.options & !f
    ensures s.enabled ==> r.options & f == !s.options & f
  {
    if !s.enabled then Settings(true, f)
    else s.(options := s.options ^ f)
  }

  /** Toggling twice while enabled restores the settings. */
  lemma ToggleTwice(s: Settings, f: bv32)
    requires s.enabled
    ensures Toggle(Toggle(s, f), f) == s
  {
  }

  /** Toggling twice from disabled leaves the options enabled with no bit of `f` set. */
  lemma ToggleTwiceFromDisabled(s: Settings, f: bv32)
    requires !s.enabled
    ensures Toggle(Toggle(s, f), f) == Settings(true, 0)
  {
  }

  /** What a validator reports for its menu item. */
  datatype ItemState = ItemState(checked: bool, enabled: bool)

  /** "Reload Domain" is checked unless domain reloading is disabled; the item is always available. */
  function ToggleDomainReloadingValidator(s: Settings): (r: ItemState)
    ensures r.enabled
    ensures r.checked <==> !s.enabled || s.options & DisableDomainReload == 0
  {
    ItemState(!Has(s, DisableDomainReload), true)
  }

  /** "Reload Scene" is checked unless scene reloading is disabled; the item is always available. */
  function ToggleSceneReloadingValidator(s: Settings): (r: ItemState)
    ensures r.enabled
    ensures r.checked <==> !s.enabled || s.options & DisableSceneReload == 0
  {
    ItemState(!Has(s, DisableSceneReload), true)
  }

  /** "Reload Dirty Types" is available only while domain reloading is disabled. */
  function ForceReloadDirtyTypesValidator(s: Settings): (r: bool)
    ensures r <==> s.enabled && s.options & DisableDomainReload != 0
  {
    Has(s, DisableDomainReload)
  }

  function ToggleDomainReloading(s: Settings): Settings
  {
    Toggle(s, DisableDomainReload)
  }

  function ToggleSceneReloading(s: Settings): Settings
  {
    Toggle(s, DisableSceneReload)
  }

  /**
   * Choosing "Reload Domain" flips its own checkmark and leaves the scene
   * checkmark alone, when the options are already on.
   */
  lemma ToggleDomainFlipsOnlyDomain(s: Settings)
    requires s.enabled
    ensures ToggleDomainReloadingValidator(ToggleDomainReloading(s)).checked == !ToggleDomainReloadingValidator(s).checked
    ensures ToggleSceneReloadingValidator(ToggleDomainReloading(s)).checked == ToggleSceneReloadingValidator(s).checked
    ensures ForceReloadDirtyTypesValidator(ToggleDomainReloading(s)) == !ForceReloadDirtyTypesValidator(s)
  {
  }

  /** Choosing "Reload Scene" flips its own checkmark and leaves the domain checkmark alone, when the options are on. */
  lemma ToggleSceneFlipsOnlyScene(s: Settings)
    requires s.enabled
    ensures ToggleSceneReloadingValidator(ToggleSceneReloading(s)).checked == !ToggleSceneReloadingValidator(s).checked
    ensures ToggleDomainReloadingValidator(ToggleSceneReloading(s)).checked == ToggleDomainReloadingValidator(s).checked
  {
  }

  /**
   * From disabled options, either toggle unchecks its own item and checks the
   * other one, whatever bits were stored before.
   */
  lemma ToggleFromDisabled(s: Settings)
    requires !s.enabled
    ensures !ToggleDomainReloadingValidator(ToggleDomainReloading(s)).checked
    ensures ToggleSceneReloadingValidator(ToggleDomainReloading(s)).checked
    ensures !ToggleSceneReloadingValidator(ToggleSceneReloading(s)).checked
    ensures ToggleDomainReloadingValidator(ToggleSceneReloading(s)).checked
  {
  }
}
