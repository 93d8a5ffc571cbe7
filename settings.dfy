/** lib/Settings: the four-field configuration record, its factory values, and
    its persistence with an integrity sentinel. EEPROM is an object holding an
    optional stored record; MD5 is a string function passed in by the caller;
    whether the flash commit succeeds is a parameter. */
module Settings {
  import opened Common
  import Utils

  /** char actionName[100] and char colors[100]: 99 characters and a terminator. */
  const TEXT_CAPACITY: nat := 100

  /** struct NVSettings. */
  datatype NVSettings = NVSettings(
    actionName: string,
    actionDelay: u32,
    colors: string,
    colorsSize: u32,
    sentinel: string)

  /** factorySettings. */
  const FactorySettings: NVSettings := NVSettings("flashingColors", 70, "0000FF:000000:000000", 1, "NA")

  /** Two records agree on the four data fields (the sentinel aside). */
  predicate SameData(a: NVSettings, b: NVSettings)
  {
    a.actionName == b.actionName && a.actionDelay == b.actionDelay
    && a.colors == b.colors && a.colorsSize == b.colorsSize
  }

  /** defaultSettings: the four data fields take the factory values; the
      sentinel is left as it was. */
  function Defaulted(r: NVSettings): NVSettings
  {
    FactorySettings.(sentinel := r.sentinel)
  }

  // ---------------------------------------------------------------------------
  // The hash input

  /** String(n) for an unsigned number: its decimal digits. */
  function DecimalString(n: nat): (s: string)
    ensures 1 <= |s|
    ensures forall i :: 0 <= i < |s| ==> '0' <= s[i] <= '9'
  {
    if n < 10 then [Utils.HexDigitChar(n)] else DecimalString(n / 10) + [Utils.HexDigitChar(n % 10)]
  }

  /** The number a string of decimal digits spells. */
  function DecimalValue(s: string): nat
    requires forall i :: 0 <= i < |s| ==> '0' <= s[i] <= '9'
  {
    if |s| == 0 then 0
    else 10 * DecimalValue(s[..|s| - 1]) + (s[|s| - 1] as int - '0' as int)
  }

  /** Each number field of the hash input can be read back on its own. */
  lemma {:induction false} DecimalRoundTrip(n: nat)
    ensures DecimalValue(DecimalString(n)) == n
  {
    if n >= 10 {
      var s := DecimalString(n);
      assert s[..|s| - 1] == DecimalString(n / 10);
      DecimalRoundTrip(n / 10);
    }
  }

  /** hashNvSettings' content: the four data fields concatenated with no
      separator; the sentinel is not part of it. */
  function HashContent(r: NVSettings): string
  {
    r.actionName + DecimalString(r.actionDelay) + r.colors + DecimalString(r.colorsSize)
  }

  /** The content, and so the hash, does not depend on the sentinel. */
  lemma HashIgnoresSentinel(r: NVSettings, sentinel: string)
    ensures HashContent(r.(sentinel := sentinel)) == HashContent(r)
  {
  }

  /** Without separators two different records give the same content, so one
      record's sentinel also vouches for the other. */
  lemma HashContentAmbiguous(md5: string -> string, sentinel: string)
    ensures var a := NVSettings("x", 1, "1c", 1, sentinel);
            var b := NVSettings("x1", 1, "c", 1, sentinel);
            !SameData(a, b) && HashContent(a) == HashContent(b)
            && (Intact(a, md5) <==> Intact(b, md5))
  {
    var a := NVSettings("x", 1, "1c", 1, sentinel);
    var b := NVSettings("x1", 1, "c", 1, sentinel);
    assert DecimalString(1) == "1";
    assert HashContent(a) == "x11c1";
    assert HashContent(b) == "x11c1";
  }

  /** The record with its sentinel set to the hash of its data, as saveSettings
      writes it. */
  function Stamp(r: NVSettings, md5: string -> string): NVSettings
  {
    r.(sentinel := md5(HashContent(r)))
  }

  /** The sentinel check of loadSettings. */
  predicate Intact(r: NVSettings, md5: string -> string)
  {
    r.sentinel == md5(HashContent(r))
  }

  // ---------------------------------------------------------------------------
  // Save and load as functions of the record in RAM and the record in flash

  /** The in-memory record and the record in flash (None: nothing stored). */
  datatype Persisted = Persisted(nv: NVSettings, flash: Option<NVSettings>)

  /** saveSettings: stamp the sentinel, wipe the flash, put the record and
      commit; a failed commit leaves the flash wiped. */
  function SaveSpec(p: Persisted, md5: string -> string, commitOk: bool): (q: Persisted)
    ensures SameData(q.nv, p.nv) && Intact(q.nv, md5)
    ensures q.flash == if commitOk then Some(q.nv) else None
  {
    var r := Stamp(p.nv, md5);
    Persisted(r, if commitOk then Some(r) else None)
  }

  /** loadSettings' answer: something is stored and its sentinel matches. */
  predicate LoadOk(p: Persisted, md5: string -> string)
  {
    p.flash.Some? && Intact(p.flash.value, md5)
  }

  /** loadSettings: nothing stored leaves everything as it was; an intact
      stored record is adopted; a corrupt one is read, the flash wiped, and the
      factory values are restored and saved. */
  function LoadSpec(p: Persisted, md5: string -> string, commitOk: bool): Persisted
  {
    match p.flash
    case None => p
    case Some(r) =>
      if Intact(r, md5) then Persisted(r, p.flash)
      else SaveSpec(Persisted(Defaulted(r), None), md5, commitOk)
  }

  /** Saving with a successful commit and loading again gives back the same
      four data fields, and the load reports success. */
  lemma SaveThenLoad(p: Persisted, md5: string -> string, commitOk: bool)
    ensures var saved := SaveSpec(p, md5, true);
            LoadOk(saved, md5)
            && LoadSpec(saved, md5, commitOk) == saved
            && SameData(LoadSpec(saved, md5, commitOk).nv, p.nv)
  {
  }

  /** A stored record whose sentinel does not match is replaced by the factory
      values, stamped, and saved when the commit succeeds; the load reports
      failure. */
  lemma LoadFallsBackToFactory(p: Persisted, md5: string -> string, commitOk: bool)
    requires p.flash.Some? && !Intact(p.flash.value, md5)
    ensures !LoadOk(p, md5)
    ensures LoadSpec(p, md5, commitOk).nv == Stamp(FactorySettings, md5)
    ensures SameData(LoadSpec(p, md5, commitOk).nv, FactorySettings)
    ensures LoadSpec(p, md5, commitOk).flash == if commitOk then Some(Stamp(FactorySettings, md5)) else None
  {
  }

  /** With nothing stored the load keeps the record in RAM and reports failure. */
  lemma LoadWithNothingStored(p: Persisted, md5: string -> string, commitOk: bool)
    requires p.flash.None?
    ensures !LoadOk(p, md5) && LoadSpec(p, md5, commitOk) == p
  {
  }

  /** After a load, whatever is in flash is intact and equal to the record in
      RAM, so loading again changes nothing and succeeds exactly when
      something is stored. */
  lemma {:induction false} LoadSettlesStore(p: Persisted, md5: string -> string, commitOk: bool)
    ensures var q := LoadSpec(p, md5, commitOk);
            (q.flash.Some? ==> q.flash.value == q.nv && Intact(q.nv, md5))
            && LoadSpec(q, md5, commitOk) == q
            && (LoadOk(q, md5) <==> q.flash.Some?)
  {
    match p.flash
    case None =>
    case Some(r) =>
      if !Intact(r, md5) {
        var q := LoadSpec(p, md5, commitOk);
        assert q == SaveSpec(Persisted(Defaulted(r), None), md5, commitOk);
      }
  }

  // ---------------------------------------------------------------------------
  // The objects

  /** The flash chip as seen through the EEPROM library. */
  class Eeprom {
    /** The stored record; None when nothing is stored (percentUsed() < 0). */
    var stored: Option<NVSettings>

    constructor (contents: Option<NVSettings>)
      ensures stored == contents
    {
      stored := contents;
    }
  }

  /** class Settings with its nvSettings member. */
  class Settings {
    var nvSettings: NVSettings

    /** The record in RAM together with the record in flash. */
    function State(flash: Eeprom): Persisted
      reads this, flash
    {
      Persisted(nvSettings, flash.stored)
    }

    /** Settings(): the zero-initialised member gets the factory data fields;
        the sentinel stays empty. */
    constructor ()
      ensures SameData(nvSettings, FactorySettings) && nvSettings.sentinel == ""
    {
      nvSettings := NVSettings("", 0, "", 0, "");
      new;
      DefaultSettings();
    }

    /** defaultSettings (private). */
    method DefaultSettings()
      modifies this
      ensures nvSettings == Defaulted(old(nvSettings))
    {
      nvSettings := nvSettings.(actionName := FactorySettings.actionName);
      nvSettings := nvSettings.(actionDelay := FactorySettings.actionDelay);
      nvSettings := nvSettings.(colors := FactorySettings.colors);
      nvSettings := nvSettings.(colorsSize := FactorySettings.colorsSize);
    }

    /** saveSettings: returns whether the commit succeeded. */
    method SaveSettings(flash: Eeprom, md5: string -> string, commitOk: bool) returns (ok: bool)
      modifies this, flash
      ensures State(flash) == SaveSpec(old(State(flash)), md5, commitOk)
      ensures ok == commitOk
    {
      nvSettings := nvSettings.(sentinel := md5(HashContent(nvSettings)));
      flash.stored := None;
      if commitOk {
        flash.stored := Some(nvSettings);
      }
      ok := commitOk;
    }

    /** factoryDefault: default the data fields, then save. */
    method FactoryDefault(flash: Eeprom, md5: string -> string, commitOk: bool) returns (ok: bool)
      modifies this, flash
      ensures State(flash) == SaveSpec(Persisted(Defaulted(old(nvSettings)), old(flash.stored)), md5, commitOk)
      ensures ok == commitOk
    {
      DefaultSettings();
      ok := SaveSettings(flash, md5, commitOk);
    }

    /** loadSettings: true exactly when a stored record with a matching
        sentinel was adopted. */
    method LoadSettings(flash: Eeprom, md5: string -> string, commitOk: bool) returns (ok: bool)
      modifies this, flash
      ensures ok == LoadOk(old(State(flash)), md5)
      ensures State(flash) == LoadSpec(old(State(flash)), md5, commitOk)
    {
      ok := false;
      if flash.stored.Some? {
        nvSettings := flash.stored.value;
        if nvSettings.sentinel != md5(HashContent(nvSettings)) {
          flash.stored := None;
          var _ := FactoryDefault(flash, md5, commitOk);
        } else {
          ok := true;
        }
      }
    }

    function GetActionName(): string
      reads this
    {
      nvSettings.actionName
    }

    function GetActionDelay(): u32
      reads this
    {
      nvSettings.actionDelay
    }

    function GetColors(): string
      reads this
    {
      nvSettings.colors
    }

    function GetColorsSize(): u32
      reads this
    {
      nvSettings.colorsSize
    }

    /** setActionName: strcpy into a 100-byte field, so the name must be shorter. */
    method SetActionName(actionName: string)
      requires |actionName| < TEXT_CAPACITY
      modifies this
      ensures nvSettings == old(nvSettings).(actionName := actionName)
      ensures GetActionName() == actionName
    {
      nvSettings := nvSettings.(actionName := actionName);
    }

    method SetActionDelay(actionDelay: u32)
      modifies this
      ensures nvSettings == old(nvSettings).(actionDelay := actionDelay)
      ensures GetActionDelay() == actionDelay
    {
      nvSettings := nvSettings.(actionDelay := actionDelay);
    }

    /** setColors: strcpy into a 100-byte field, so the string must be shorter. */
    method SetColors(colors: string)
      requires |colors| < TEXT_CAPACITY
      modifies this
      ensures nvSettings == old(nvSettings).(colors := colors)
      ensures GetColors() == colors
    {
      nvSettings := nvSettings.(colors := colors);
    }

    method SetColorsSize(colorsSize: u32)
      modifies this
      ensures nvSettings == old(nvSettings).(colorsSize := colorsSize)
      ensures GetColorsSize() == colorsSize
    {
      nvSettings := nvSettings.(colorsSize := colorsSize);
    }
  }
}
