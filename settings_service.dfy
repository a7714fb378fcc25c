/** System settings: a single configuration record, created with defaults on
    first read and updated by shallow merge. */
module SettingsService {
  import opened Wrappers

  /** `SupportedLanguage` */
  datatype Language = En | Es | Fr | De | It | Pt | Nl | Ja

  /** `Theme` */
  datatype Theme = Light | Dark | System

  /** `SystemSettings`; a `null` support address is `None`. */
  datatype SystemSettings = SystemSettings(language: Language, theme: Theme, supportEmail: Option<string>)

  /** `Partial<SystemSettings>`: a field is either absent (`None`) or given;
      a given support address may itself be `null`. */
  datatype PartialSettings = PartialSettings(
    language: Option<Language>, theme: Option<Theme>, supportEmail: Option<Option<string>>)

  /** `DEFAULT_SETTINGS` */
  const Default := SystemSettings(En, System, None)

  const NoChange := PartialSettings(None, None, None)

  /** `{ ...current, ...newConfig }`: every field given in `update` replaces
      the current one; the others are kept. */
  function Merge(current: SystemSettings, update: PartialSettings): (r: SystemSettings)
    ensures update.language.Some? ==> r.language == update.language.value
    ensures update.language.None? ==> r.language == current.language
    ensures update.theme.Some? ==> r.theme == update.theme.value
    ensures update.theme.None? ==> r.theme == current.theme
    ensures update.supportEmail.Some? ==> r.supportEmail == update.supportEmail.value
    ensures update.supportEmail.None? ==> r.supportEmail == current.supportEmail
  {
    SystemSettings(
      update.language.GetOr(current.language),
      update.theme.GetOr(current.theme),
      update.supportEmail.GetOr(current.supportEmail))
  }

  /** Spreading one partial object and then another is spreading the second
      over the first. */
  function Then(first: PartialSettings, second: PartialSettings): PartialSettings {
    PartialSettings(
      if second.language.Some? then second.language else first.language,
      if second.theme.Some? then second.theme else first.theme,
      if second.supportEmail.Some? then second.supportEmail else first.supportEmail)
  }

  /** An empty update changes nothing. */
  lemma MergeNoChange(current: SystemSettings)
    ensures Merge(current, NoChange) == current
  {
  }

  /** Applying the same update twice is applying it once. */
  lemma MergeIdempotent(current: SystemSettings, update: PartialSettings)
    ensures Merge(Merge(current, update), update) == Merge(current, update)
  {
  }

  /** Two updates in a row are one combined update. */
  lemma MergeThen(current: SystemSettings, first: PartialSettings, second: PartialSettings)
    ensures Merge(Merge(current, first), second) == Merge(current, Then(first, second))
  {
  }

  /** A full update replaces the settings whatever they were. */
  lemma MergeFull(current: SystemSettings, s: SystemSettings)
    ensures Merge(current, PartialSettings(Some(s.language), Some(s.theme), Some(s.supportEmail))) == s
  {
  }

  /** The settings a read returns for the given table contents: the first row,
      or the defaults when the table is empty. */
  function Current(rows: seq<SystemSettings>): SystemSettings {
    if rows == [] then Default else rows[0]
  }

  /** The `system_settings` table, one configuration per row. */
  class SettingsStore {
    var rows: seq<SystemSettings>

    constructor ()
      ensures rows == []
    {
      rows := [];
    }

    /** `getSystemSettings`: the first row, or, on an empty table, a new row
        holding the defaults. */
    method GetSystemSettings() returns (s: SystemSettings)
      modifies this
      ensures s == Current(old(rows))
      ensures old(rows) == [] ==> rows == [Default]
      ensures old(rows) != [] ==> rows == old(rows)
      ensures rows != [] && rows[0] == s
    {
      if |rows| == 0 {
        s := CreateDefaultSystemSettings();
        return;
      }
      s := rows[0];
    }

    /** `createDefaultSystemSettings` */
    method CreateDefaultSystemSettings() returns (s: SystemSettings)
      modifies this
      ensures rows == old(rows) + [Default] && s == Default
    {
      rows := rows + [Default];
      s := Default;
    }

    /** `updateSystemSettings`: merges the update into the current settings
        and writes the result to every row (the update has no filter). */
    method UpdateSystemSettings(newConfig: PartialSettings) returns (s: SystemSettings)
      modifies this
      ensures s == Merge(Current(old(rows)), newConfig)
      ensures |rows| == if old(rows) == [] then 1 else |old(rows)|
      ensures forall i :: 0 <= i < |rows| ==> rows[i] == s
    {
      var currentConfig := GetSystemSettings();
      var mergedConfig := Merge(currentConfig, newConfig);
      rows := seq(|rows|, _ => mergedConfig);
      s := rows[0];
    }
  }

  /** After any update, a read returns what the update returned. */
  method UpdateThenGet(store: SettingsStore, newConfig: PartialSettings) returns (updated: SystemSettings, read: SystemSettings)
    modifies store
    ensures updated == Merge(Current(old(store.rows)), newConfig)
    ensures read == updated
  {
    updated := store.UpdateSystemSettings(newConfig);
    read := store.GetSystemSettings();
  }
}
