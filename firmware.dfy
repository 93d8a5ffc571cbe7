/** src/main.cpp: the actions table, setup(), loop() with its network
    throttle, and the palette editing of handleRoot(). The web server, DNS and
    page templating are not modelled: a request arrives as a value, and the
    page that would be sent back is not produced. */
module Firmware {
  import opened Common
  import opened Lighting
  import Utils
  import Settings

  /** PRIORITY_REDUCER: the network is serviced once every 70 loop() calls. */
  const PRIORITY_REDUCER: nat := 70

  // ---------------------------------------------------------------------------
  // The actions table

  /** actions: only three entries; the chase and fade entries are commented out. */
  const Actions: map<string, Action> := map[
    "allOff" := AllOff,
    "flashingColors" := FlashingColors,
    "solidColors" := SolidColors]

  /** actions[name]: std::map::operator[] gives a null routine for any other name. */
  function LookupAction(name: string): (a: Option<Action>)
    ensures a == Some(AllOff) <==> name == "allOff"
    ensures a == Some(FlashingColors) <==> name == "flashingColors"
    ensures a == Some(SolidColors) <==> name == "solidColors"
    ensures a.None? <==> name != "allOff" && name != "flashingColors" && name != "solidColors"
  {
    if name in Actions then Some(Actions[name]) else None
  }

  /** The chase and fade names the page can offer select no routine. */
  lemma UnmappedNamesSelectNothing()
    ensures LookupAction("oneDirectionChase") == None
    ensures LookupAction("backAndForthChase") == None
    ensures LookupAction("rotatingColorFade") == None
  {
  }

  /** A chase name saved by "update" with a successful commit is adopted again
      by the load in setup(), so after a restart the routine is still null. */
  lemma UnmappedNameSurvivesRestart(nv: Settings.NVSettings, md5: string -> string, commitOk: bool)
    requires nv.actionName == "oneDirectionChase" || nv.actionName == "backAndForthChase"
    ensures var saved := Settings.SaveSpec(Settings.Persisted(nv, None), md5, true);
            var restarted := Settings.LoadSpec(Settings.Persisted(Settings.FactorySettings.(sentinel := ""), saved.flash), md5, commitOk);
            restarted.nv.actionName == nv.actionName && LookupAction(restarted.nv.actionName) == None
  {
    UnmappedNamesSelectNothing();
  }

  // ---------------------------------------------------------------------------
  // loop()'s throttle

  /** Whether a loop() call with this counter value services DNS and HTTP. */
  predicate ServicesNetwork(counter: u32)
  {
    counter % PRIORITY_REDUCER == 0
  }

  /** The 32-bit counter after counter++. */
  function NextCounter(counter: u32): (c: u32)
    ensures c == if counter + 1 < U32_MODULUS then counter + 1 else 0
  {
    (counter + 1) % U32_MODULUS
  }

  /** Away from the wrap-around, the network is serviced exactly once in every
      PRIORITY_REDUCER consecutive calls. */
  lemma ServiceCadence(counter: u32, k: nat)
    requires ServicesNetwork(counter) && counter + PRIORITY_REDUCER < U32_MODULUS
    requires 0 < k < PRIORITY_REDUCER
    ensures !ServicesNetwork(counter + k)
    ensures ServicesNetwork(counter + PRIORITY_REDUCER)
  {
  }

  /** 2^32 is not a multiple of 70: across the wrap-around the gap between two
      serviced calls shrinks to 46. */
  lemma ServiceGapAtWrap()
    ensures ServicesNetwork(U32_MODULUS - 46) && ServicesNetwork(0)
    ensures forall c: u32 :: U32_MODULUS - 46 < c ==> !ServicesNetwork(c)
  {
    forall c: u32 | U32_MODULUS - 46 < c
      ensures !ServicesNetwork(c)
    {
      assert c % PRIORITY_REDUCER == c - 61356675 * PRIORITY_REDUCER;
    }
  }

  // ---------------------------------------------------------------------------
  // The web form

  /** The fields of a POST handleRoot reads: do, action, changeDelay (already
      converted to a number) and selectColor0, selectColor1, ... */
  datatype Form = Form(doField: string, action: string, changeDelay: u32, selectColors: seq<string>)

  datatype Request = Get | Post(form: Form) | OtherMethod

  /** server.arg("selectColor" + i): the empty string when the field is absent. */
  function ColorField(f: Form, i: nat): string
  {
    if i < |f.selectColors| then f.selectColors[i] else ""
  }

  /** String::equalsIgnoreCase. */
  predicate EqualsIgnoreCase(a: string, b: string)
  {
    Utils.LowerString(a) == Utils.LowerString(b)
  }

  /** String::startsWith. */
  predicate StartsWith(s: string, prefix: string)
  {
    |prefix| <= |s| && s[..|prefix|] == prefix
  }

  /** The buttons of the page, in the order handleRoot tests them. */
  datatype Command = Add | Remove | Update | NoCommand

  function CommandOf(doField: string): Command
  {
    if EqualsIgnoreCase("add", doField) then Add
    else if StartsWith(doField, "remove") then Remove
    else if EqualsIgnoreCase("update", doField) then Update
    else NoCommand
  }

  /** formDo.substring(7, 8).toInt(): the digit at index 7, and 0 when there is
      no character there or it is not a digit. */
  function RemoveIndex(doField: string): (n: nat)
    ensures n <= 9
    ensures n == if |doField| > 7 && '0' <= doField[7] <= '9' then doField[7] as int - '0' as int else 0
  {
    var digit := Utils.Substring(doField, 7, 8);
    if |digit| == 1 && '0' <= digit[0] <= '9' then digit[0] as int - '0' as int else 0
  }

  // ---------------------------------------------------------------------------
  // Palette edits as functions on the three slots

  /** Slots below size whose form field is non-empty take the colour it holds
      after the leading '#'; every other slot keeps its colour. */
  function ApplyFields(colors: seq<Color>, size: nat, f: Form): (r: seq<Color>)
    requires |colors| == MAX_COLORS
    ensures |r| == MAX_COLORS
  {
    seq(MAX_COLORS, k requires 0 <= k < MAX_COLORS =>
      if k < size && ColorField(f, k) != "" then RgbStringToColor(ColorField(f, k), 1) else colors[k])
  }

  /** Slots at or above size, and slots whose field is empty, keep their
      colour; an active slot with a non-empty field takes that field parsed
      after its leading '#', so a field holding "#" followed by the hex text
      of a colour c sets the slot to c. */
  lemma ApplyFieldsEffect(colors: seq<Color>, size: nat, f: Form, k: nat, c: Color)
    requires |colors| == MAX_COLORS && k < MAX_COLORS
    ensures k >= size || ColorField(f, k) == "" ==> ApplyFields(colors, size, f)[k] == colors[k]
    ensures k < size && ColorField(f, k) != "" ==> ApplyFields(colors, size, f)[k] == RgbStringToColor(ColorField(f, k), 1)
    ensures k < size && ColorField(f, k) == "#" + Utils.RgbDecimalsToHex(c.red, c.green, c.blue)
            ==> ApplyFields(colors, size, f)[k] == c
  {
    var hex := "#" + Utils.RgbDecimalsToHex(c.red, c.green, c.blue);
    if k < size && ColorField(f, k) == hex {
      assert ApplyFields(colors, size, f)[k] == RgbStringToColor(hex, 1);
      ColorHexRoundTrip(c);
    }
  }

  /** Posting back the colours the page printed leaves the palette as it was. */
  lemma {:induction false} ResubmitKeepsPalette(colors: seq<Color>, size: nat, f: Form)
    requires |colors| == MAX_COLORS
    requires forall k :: 0 <= k < size && k < MAX_COLORS ==>
      ColorField(f, k) == "#" + Utils.RgbDecimalsToHex(colors[k].red, colors[k].green, colors[k].blue)
    ensures ApplyFields(colors, size, f) == colors
  {
    forall k | 0 <= k < MAX_COLORS
      ensures ApplyFields(colors, size, f)[k] == colors[k]
    {
      ApplyFieldsEffect(colors, size, f, k, colors[k]);
    }
  }

  /** "add": a palette below capacity gets one more slot, set to Black. */
  function AddSlot(colors: seq<Color>, size: nat): seq<Color>
    requires |colors| == MAX_COLORS
  {
    if size < MAX_COLORS then colors[size := Black] else colors
  }

  /** Below capacity "add" appends one Black slot and keeps the rest; at
      capacity it changes nothing. */
  lemma AddAppendsBlack(colors: seq<Color>, size: nat)
    requires |colors| == MAX_COLORS && size <= MAX_COLORS
    ensures size < MAX_COLORS ==> AddSlot(colors, size)[..size + 1] == colors[..size] + [Black]
                                  && AddSlot(colors, size)[size + 1..] == colors[size + 1..]
    ensures size == MAX_COLORS ==> AddSlot(colors, size) == colors
  {
    if size < MAX_COLORS {
      assert AddSlot(colors, size)[..size + 1] == colors[..size] + [Black];
    }
  }

  /** "remove:n": slots n .. size-1 take the colour of the slot after them. The
      read past the last slot is skipped (see SourceShiftReads). */
  function ShiftLeft(colors: seq<Color>, n: nat, size: nat): (r: seq<Color>)
    requires |colors| == MAX_COLORS
    ensures |r| == MAX_COLORS
  {
    seq(MAX_COLORS, k requires 0 <= k < MAX_COLORS =>
      if n <= k < size && k + 1 < MAX_COLORS then colors[k + 1] else colors[k])
  }

  /** The slots the remove loop of the source reads from: tempColors[i + 1]
      for i = n .. size-1. */
  function SourceShiftReads(n: nat, size: nat): (indices: seq<nat>)
    ensures |indices| == if n < size then size - n else 0
    ensures forall k :: 0 <= k < |indices| ==> indices[k] == n + 1 + k
    decreases size - n
  {
    if n < size then [n + 1] + SourceShiftReads(n + 1, size) else []
  }

  /** With a full palette the source's shift reads tempColors[MAX_COLORS],
      one past the end of the array. */
  lemma {:induction false} RemoveAtCapacityReadsPastEnd(n: nat)
    requires 0 < n < MAX_COLORS
    ensures MAX_COLORS in SourceShiftReads(n, MAX_COLORS)
    decreases MAX_COLORS - n
  {
    if n < MAX_COLORS - 1 {
      RemoveAtCapacityReadsPastEnd(n + 1);
    }
  }

  /** Removing slot n (0 < n < size) leaves the other active colours in order
      and never touches slot 0. */
  lemma RemoveDropsEntry(colors: seq<Color>, n: nat, size: nat)
    requires |colors| == MAX_COLORS && 0 < n < size <= MAX_COLORS
    ensures ShiftLeft(colors, n, size)[..size - 1] == colors[..n] + colors[n + 1 .. size]
    ensures ShiftLeft(colors, n, size)[0] == colors[0]
  {
    var r := ShiftLeft(colors, n, size);
    assert forall k :: 0 <= k < size - 1 ==> r[k] == (colors[..n] + colors[n + 1 .. size])[k];
  }

  /** Removing the slot that "add" just appended gives the active colours back. */
  lemma RemoveUndoesAdd(colors: seq<Color>, size: nat)
    requires |colors| == MAX_COLORS && 1 <= size < MAX_COLORS
    ensures ShiftLeft(AddSlot(colors, size), size, size + 1)[..size] == colors[..size]
  {
    RemoveDropsEntry(AddSlot(colors, size), size, size + 1);
    AddAppendsBlack(colors, size);
  }

  // ---------------------------------------------------------------------------
  // The colours string of "update"

  /** colorHex[i].substring(1): the field without its leading '#'. */
  function DropFirst(s: string): string
  {
    if |s| == 0 then "" else s[1..]
  }

  /** One step of the update loop: a ':' goes in front of the part unless the
      string built so far is still empty. */
  function AppendPart(acc: string, part: string): string
  {
    if acc == "" then part else acc + ":" + part
  }

  /** The colours string "update" builds from the first n colour fields. */
  function ColorsString(f: Form, n: nat): string
  {
    if n == 0 then "" else AppendPart(ColorsString(f, n - 1), DropFirst(ColorField(f, n - 1)))
  }

  /** The colour parts, each field without its '#'. */
  function Parts(f: Form, n: nat): (parts: seq<string>)
    ensures |parts| == n
  {
    seq(n, i requires 0 <= i < n => DropFirst(ColorField(f, i)))
  }

  /** parts joined with ':' between neighbours. */
  function Join(parts: seq<string>): string
  {
    if |parts| == 0 then ""
    else if |parts| == 1 then parts[0]
    else Join(parts[..|parts| - 1]) + ":" + parts[|parts| - 1]
  }

  /** When every field holds more than its '#', the colours string is the
      ':'-join of the parts in index order. */
  lemma {:induction false} ColorsStringIsJoin(f: Form, n: nat)
    requires forall i :: 0 <= i < n ==> |ColorField(f, i)| >= 2
    ensures ColorsString(f, n) == Join(Parts(f, n))
    ensures n > 0 ==> ColorsString(f, n) != ""
  {
    if n > 0 {
      ColorsStringIsJoin(f, n - 1);
      assert Parts(f, n)[..n - 1] == Parts(f, n - 1);
      assert Parts(f, n)[n - 1] == DropFirst(ColorField(f, n - 1));
    }
  }

  /** An empty first field swallows the separator: the string no longer has
      one part per colour. */
  lemma EmptyFieldDropsSeparator()
    ensures var f := Form("update", "flashingColors", 70, ["#", "#00ff00"]);
            ColorsString(f, 2) == "00ff00" && Join(Parts(f, 2)) == ":00ff00"
  {
    var f := Form("update", "flashingColors", 70, ["#", "#00ff00"]);
    assert DropFirst(ColorField(f, 0)) == "";
    assert DropFirst(ColorField(f, 1)) == "00ff00";
    assert Parts(f, 2) == ["", "00ff00"];
  }

  /** The loop of "update" that builds the colours string (main.cpp:206-216). */
  method BuildColorsString(f: Form, size: nat) returns (colorsString: string)
    ensures colorsString == ColorsString(f, size)
  {
    colorsString := "";
    var i := 0;
    while i < size
      invariant 0 <= i <= size
      invariant colorsString == ColorsString(f, i)
    {
      var colorHex := ColorField(f, i);
      if colorsString == "" {
        colorsString := colorsString + DropFirst(colorHex);
      } else {
        colorsString := colorsString + ":";
        colorsString := colorsString + DropFirst(colorHex);
      }
      i := i + 1;
    }
  }

  /** What "update" hands to the settings setters must fit their 100-byte fields. */
  predicate UpdateFits(f: Form, size: nat)
  {
    |f.action| < Settings.TEXT_CAPACITY && |ColorsString(f, size)| < Settings.TEXT_CAPACITY
  }

  /** The setters' bound for a request: only an "update" reaches them. */
  predicate RequestFits(r: Request, size: nat)
  {
    r.Post? && CommandOf(r.form.doField) == Update ==> UpdateFits(r.form, size)
  }

  /** Every colour count the firmware holds or has stored is between 1 and MAX_COLORS. */
  predicate CountsInRange(nv: Settings.NVSettings, stored: Option<Settings.NVSettings>)
  {
    1 <= nv.colorsSize <= MAX_COLORS
    && (stored.Some? ==> 1 <= stored.value.colorsSize <= MAX_COLORS)
  }

  /** Loading keeps every colour count in range, provided an intact stored
      record holds a count in range (the factory record holds 1). */
  lemma LoadKeepsCountsInRange(stored: Option<Settings.NVSettings>, md5: string -> string, commitOk: bool)
    requires stored.Some? && Settings.Intact(stored.value, md5) ==> 1 <= stored.value.colorsSize <= MAX_COLORS
    ensures var q := Settings.LoadSpec(Settings.Persisted(Settings.FactorySettings.(sentinel := ""), stored), md5, commitOk);
            CountsInRange(q.nv, q.flash)
  {
  }

  /** The part of setup() that hands the loaded settings to the engine:
      colorStrings is what Utils::split made of the stored colours string. */
  method ConfigureEngine(s: Settings.Settings, colorStrings: seq<string>) returns (e: Engine)
    requires 1 <= s.nvSettings.colorsSize <= MAX_COLORS && |colorStrings| == MAX_COLORS
    ensures fresh(e) && fresh(e.leds) && fresh(e.actionColors) && e.Valid()
    ensures e.actionDelay == s.GetActionDelay()
    ensures e.currentAction == LookupAction(s.GetActionName())
    ensures e.actionColorsSize == s.GetColorsSize()
    ensures forall i :: 0 <= i < MAX_COLORS ==> e.actionColors[i] == RgbStringToColor(colorStrings[i], 0)
    ensures e.leds[..] == Fill(Black) && e.shown == []
    ensures e.lastColor == Black && e.lastChange == 0
  {
    e := new Engine();
    e.actionDelay := s.GetActionDelay();
    e.currentAction := LookupAction(s.GetActionName());
    e.actionColorsSize := s.GetColorsSize();
    var i := 0;
    while i < MAX_COLORS
      invariant 0 <= i <= MAX_COLORS
      invariant forall k :: 0 <= k < i ==> e.actionColors[k] == RgbStringToColor(colorStrings[k], 0)
      modifies e.actionColors
    {
      e.actionColors[i] := RgbStringToColor(colorStrings[i], 0);
      i := i + 1;
    }
  }

  // ---------------------------------------------------------------------------
  // The firmware's global state

  /** The globals of main.cpp and of the Lighting engine, with handleRoot's
      statics (tempColors, tempColorsSize, tempDelay, tempAction) and loop()'s
      counter. */
  class Firmware {
    const engine: Engine
    const settings: Settings.Settings
    const flash: Settings.Eeprom
    /** The MD5 hex digest, a library this model does not contain. */
    const md5: string -> string
    var deviceId: string
    /** loop()'s static counter. */
    var counter: u32
    const tempColors: array<Color>
    var tempColorsSize: nat
    var tempDelay: u32
    var tempAction: string

    ghost predicate Valid()
      reads this, engine, settings, flash
    {
      && engine.Valid()
      && tempColors.Length == MAX_COLORS
      && tempColors != engine.leds && tempColors != engine.actionColors
      && 1 <= tempColorsSize <= MAX_COLORS
      && CountsInRange(settings.nvSettings, flash.stored)
    }

    // -- pieces of state that a step leaves alone --

    twostate predicate PageUnchanged()
      reads this, tempColors
    {
      && tempColors[..] == old(tempColors[..])
      && tempColorsSize == old(tempColorsSize)
      && tempDelay == old(tempDelay) && tempAction == old(tempAction)
    }

    twostate predicate ConfigUnchanged()
      reads this, engine, engine.actionColors, settings, flash
    {
      && engine.actionColors[..] == old(engine.actionColors[..])
      && engine.actionColorsSize == old(engine.actionColorsSize)
      && engine.actionDelay == old(engine.actionDelay)
      && engine.currentAction == old(engine.currentAction)
      && settings.nvSettings == old(settings.nvSettings)
      && flash.stored == old(flash.stored)
    }

    twostate predicate RenderUnchanged()
      reads engine, engine.leds
    {
      && engine.leds[..] == old(engine.leds[..])
      && engine.lastColor == old(engine.lastColor)
      && engine.lastChange == old(engine.lastChange)
      && engine.shown == old(engine.shown)
    }

    // -- what each kind of request does --

    /** GET: all MAX_COLORS page slots are copied from actionColors (the page's
        count is not). */
    twostate predicate Resynced()
      reads this, tempColors, engine, engine.actionColors
    {
      && tempColors[..] == engine.actionColors[..]
      && tempColorsSize == old(tempColorsSize)
      && tempDelay == old(tempDelay) && tempAction == old(tempAction)
    }

    /** "add": fields applied; one more Black slot unless already full. */
    twostate predicate Added(f: Form)
      reads this, tempColors
      requires tempColors.Length == MAX_COLORS
    {
      && tempColors[..] == AddSlot(ApplyFields(old(tempColors[..]), old(tempColorsSize), f), old(tempColorsSize))
      && tempColorsSize == (if old(tempColorsSize) < MAX_COLORS then old(tempColorsSize) + 1 else old(tempColorsSize))
      && tempDelay == f.changeDelay && tempAction == f.action
    }

    /** "remove:n": fields applied; slot n removed only when 0 < n < size. */
    twostate predicate Removed(f: Form)
      reads this, tempColors
      requires tempColors.Length == MAX_COLORS
    {
      var n := RemoveIndex(f.doField);
      var applied := ApplyFields(old(tempColors[..]), old(tempColorsSize), f);
      && (if 0 < n < old(tempColorsSize)
          then tempColors[..] == ShiftLeft(applied, n, old(tempColorsSize)) && tempColorsSize == old(tempColorsSize) - 1
          else tempColors[..] == applied && tempColorsSize == old(tempColorsSize))
      && tempDelay == f.changeDelay && tempAction == f.action
    }

    /** "update": the settings take the form's values and are saved; the engine
        takes the new routine, delay, colours and the page's count. */
    twostate predicate Updated(f: Form, commitOk: bool)
      reads this, tempColors, engine, engine.actionColors, settings, flash
      requires tempColors.Length == MAX_COLORS && engine.actionColors.Length == MAX_COLORS
      requires old(tempColorsSize) <= MAX_COLORS
    {
      var size := old(tempColorsSize);
      var edited := old(settings.nvSettings).(actionName := f.action, actionDelay := f.changeDelay,
                                              colors := ColorsString(f, size), colorsSize := size);
      && settings.State(flash) == Settings.SaveSpec(Settings.Persisted(edited, old(flash.stored)), md5, commitOk)
      && engine.currentAction == LookupAction(f.action)
      && engine.actionDelay == f.changeDelay && tempDelay == f.changeDelay && tempAction == f.action
      && engine.actionColors[..] == ApplyFields(old(engine.actionColors[..]), size, f)
      && tempColors[..] == ApplyFields(old(tempColors[..]), size, f)
      && tempColorsSize == size && engine.actionColorsSize == size
    }

    /** The effect of handleRoot on one request. */
    twostate predicate Handled(r: Request, commitOk: bool)
      reads this, tempColors, engine, engine.actionColors, settings, flash
      requires tempColors.Length == MAX_COLORS && engine.actionColors.Length == MAX_COLORS
      requires old(tempColorsSize) <= MAX_COLORS
    {
      match r
      case Get => Resynced() && ConfigUnchanged()
      case OtherMethod => PageUnchanged() && ConfigUnchanged()
      case Post(f) =>
        match CommandOf(f.doField)
        case Add => Added(f) && ConfigUnchanged()
        case Remove => Removed(f) && ConfigUnchanged()
        case Update => Updated(f, commitOk)
        case NoCommand => PageUnchanged() && ConfigUnchanged()
    }

    // -- setup() --

    /** setup(): device id from the MAC address, settings loaded, engine
        globals taken from them; colorStrings is what Utils::split made of the
        stored colours string. handleRoot's statics are given the values their
        first use would give them. */
    constructor (flashChip: Settings.Eeprom, md5: string -> string, macAddress: string,
                 commitOk: bool, colorStrings: seq<string>)
      requires |colorStrings| == MAX_COLORS
      requires flashChip.stored.Some? && Settings.Intact(flashChip.stored.value, md5)
               ==> 1 <= flashChip.stored.value.colorsSize <= MAX_COLORS
      modifies flashChip
      ensures Valid() && fresh(engine) && fresh(engine.leds) && fresh(engine.actionColors)
      ensures fresh(settings) && fresh(tempColors)
      ensures flash == flashChip && this.md5 == md5
      ensures deviceId == Utils.GenDeviceIdFromHash(md5(macAddress))
      ensures settings.State(flash) == Settings.LoadSpec(
                Settings.Persisted(Settings.FactorySettings.(sentinel := ""), old(flashChip.stored)), md5, commitOk)
      ensures engine.actionDelay == settings.nvSettings.actionDelay
      ensures engine.currentAction == LookupAction(settings.nvSettings.actionName)
      ensures engine.actionColorsSize == settings.nvSettings.colorsSize
      ensures forall i :: 0 <= i < MAX_COLORS ==> engine.actionColors[i] == RgbStringToColor(colorStrings[i], 0)
      ensures engine.leds[..] == Fill(Black) && engine.shown == []
      ensures engine.lastColor == Black && engine.lastChange == 0 && counter == 0
      ensures tempColors[..] == [engine.actionColors[0], Black, Black]
      ensures tempColorsSize == engine.actionColorsSize
      ensures tempDelay == engine.actionDelay && tempAction == settings.nvSettings.actionName
    {
      var id := Utils.GenDeviceIdFromHash(md5(macAddress));
      var s := new Settings.Settings();
      var _ := s.LoadSettings(flashChip, md5, commitOk);
      LoadKeepsCountsInRange(old(flashChip.stored), md5, commitOk);
      var e := ConfigureEngine(s, colorStrings);
      var temp := new Color[MAX_COLORS](_ => Black);
      temp[0] := e.actionColors[0];
      engine := e;
      settings := s;
      flash := flashChip;
      this.md5 := md5;
      deviceId := id;
      counter := 0;
      tempColors := temp;
      tempColorsSize := s.GetColorsSize();
      tempDelay := s.GetActionDelay();
      tempAction := s.GetActionName();
      new;
      assert tempColors[..] == [engine.actionColors[0], Black, Black];
    }

    // -- handleRoot() --

    /** The loop shared by "add" and "remove" (main.cpp:164-168, 183-187). */
    method ApplyColorFields(f: Form)
      requires Valid()
      modifies tempColors
      ensures tempColors[..] == ApplyFields(old(tempColors[..]), tempColorsSize, f)
    {
      var i := 0;
      while i < tempColorsSize
        invariant 0 <= i <= tempColorsSize
        invariant tempColors[..] == ApplyFields(old(tempColors[..]), i, f)
      {
        var colorHex := ColorField(f, i);
        if colorHex != "" {
          tempColors[i] := RgbStringToColor(colorHex, 1);
        }
        i := i + 1;
      }
    }

    /** GET: tempColors[i] := actionColors[i] for every slot. */
    method HandleGet()
      requires Valid()
      modifies tempColors
      ensures tempColors[..] == engine.actionColors[..]
    {
      var i := 0;
      while i < MAX_COLORS
        invariant 0 <= i <= MAX_COLORS
        invariant forall k :: 0 <= k < i ==> tempColors[k] == engine.actionColors[k]
      {
        tempColors[i] := engine.actionColors[i];
        i := i + 1;
      }
    }

    /** The "add" button. */
    method HandleAdd(f: Form)
      requires Valid()
      modifies this`tempColorsSize, this`tempDelay, this`tempAction, tempColors
      ensures Valid()
      ensures Added(f)
    {
      ApplyColorFields(f);
      if tempColorsSize < MAX_COLORS {
        tempColorsSize := tempColorsSize + 1;
        tempColors[tempColorsSize - 1] := Black;
      }
      tempDelay := f.changeDelay;
      tempAction := f.action;
    }

    /** The "remove:n" button. The shift skips the source's read of
        tempColors[MAX_COLORS] when the palette is full. */
    method HandleRemove(f: Form)
      requires Valid()
      modifies this`tempColorsSize, this`tempDelay, this`tempAction, tempColors
      ensures Valid()
      ensures Removed(f)
    {
      ApplyColorFields(f);
      ghost var applied := tempColors[..];
      assert |applied| == MAX_COLORS;
      var iColorNum := RemoveIndex(f.doField);
      var size := tempColorsSize;
      if 0 < iColorNum < size {
        var i := iColorNum;
        while i < size
          invariant iColorNum <= i <= size
          invariant tempColors[..] == ShiftLeft(applied, iColorNum, i)
        {
          if i + 1 < MAX_COLORS {
            tempColors[i] := tempColors[i + 1];
          }
          i := i + 1;
        }
        tempColorsSize := size - 1;
      }
      tempDelay := f.changeDelay;
      tempAction := f.action;
    }

    /** The settings half of "update" (main.cpp:219-223): the setters, then
        saveSettings. */
    method StoreUpdate(f: Form, commitOk: bool)
      requires Valid() && UpdateFits(f, tempColorsSize)
      modifies settings, flash
      ensures settings.State(flash) == Settings.SaveSpec(Settings.Persisted(
                old(settings.nvSettings).(actionName := f.action, actionDelay := f.changeDelay,
                                          colors := ColorsString(f, tempColorsSize), colorsSize := tempColorsSize),
                old(flash.stored)), md5, commitOk)
    {
      var colorsString := BuildColorsString(f, tempColorsSize);
      settings.SetActionDelay(f.changeDelay);
      settings.SetActionName(f.action);
      settings.SetColors(colorsString);
      settings.SetColorsSize(tempColorsSize);
      var _ := settings.SaveSettings(flash, md5, commitOk);
    }

    /** The colour loop of "update" (main.cpp:232-239): each non-empty field
        sets both the engine's and the page's slot. */
    method ApplyUpdateColors(f: Form)
      requires Valid()
      modifies engine.actionColors, tempColors
      ensures engine.actionColors[..] == ApplyFields(old(engine.actionColors[..]), tempColorsSize, f)
      ensures tempColors[..] == ApplyFields(old(tempColors[..]), tempColorsSize, f)
    {
      var i := 0;
      while i < tempColorsSize
        invariant 0 <= i <= tempColorsSize
        invariant engine.actionColors[..] == ApplyFields(old(engine.actionColors[..]), i, f)
        invariant tempColors[..] == ApplyFields(old(tempColors[..]), i, f)
      {
        var colorHex := ColorField(f, i);
        if colorHex != "" {
          var color := RgbStringToColor(colorHex, 1);
          engine.actionColors[i] := color;
          tempColors[i] := color;
        }
        i := i + 1;
      }
    }

    /** The "update" button. */
    method HandleUpdate(f: Form, commitOk: bool)
      requires Valid() && UpdateFits(f, tempColorsSize)
      modifies this`tempDelay, this`tempAction, tempColors, engine, engine.actionColors, settings, flash
      ensures Valid()
      ensures Updated(f, commitOk)
      ensures RenderUnchanged()
    {
      StoreUpdate(f, commitOk);
      tempAction := f.action;
      engine.currentAction := LookupAction(f.action);
      engine.actionDelay := f.changeDelay;
      tempDelay := engine.actionDelay;
      ApplyUpdateColors(f);
      engine.actionColorsSize := tempColorsSize;
    }

    /** handleRoot() up to the building of the page. */
    method HandleRoot(r: Request, commitOk: bool)
      requires Valid() && RequestFits(r, tempColorsSize)
      modifies this`tempColorsSize, this`tempDelay, this`tempAction, tempColors
      modifies engine, engine.actionColors, settings, flash
      ensures Valid()
      ensures Handled(r, commitOk)
      ensures RenderUnchanged()
    {
      match r
      case Get => HandleGet();
      case OtherMethod =>
      case Post(f) =>
        match CommandOf(f.doField)
        case Add => HandleAdd(f);
        case Remove => HandleRemove(f);
        case Update => HandleUpdate(f, commitOk);
        case NoCommand =>
    }

    // -- loop() --

    /** loop(): with the pre-increment counter a multiple of PRIORITY_REDUCER the
        network is serviced, which may deliver one request to handleRoot; then
        the current routine runs once. A null routine (an unmapped action name)
        is reported as ran == false and changes nothing; the source would call
        through a null pointer there. */
    method Loop(now: u32, later: u32, request: Option<Request>, commitOk: bool)
      returns (serviced: bool, ran: bool)
      requires Valid()
      requires ServicesNetwork(counter) && request.Some? ==> RequestFits(request.value, tempColorsSize)
      modifies this`counter, this`tempColorsSize, this`tempDelay, this`tempAction, tempColors
      modifies engine, engine.leds, engine.actionColors, settings, flash
      ensures Valid()
      ensures serviced == ServicesNetwork(old(counter))
      ensures counter == NextCounter(old(counter))
      ensures serviced && request.Some? ==> Handled(request.value, commitOk)
      ensures !(serviced && request.Some?) ==> PageUnchanged() && ConfigUnchanged()
      ensures ran <==> engine.currentAction.Some?
      ensures ran ==> engine.Rendered(engine.currentAction.value, old(engine.leds[..]), old(engine.lastColor),
                                      old(engine.lastChange), old(engine.shown), now, later)
      ensures !ran ==> RenderUnchanged()
    {
      serviced := ServicesNetwork(counter);
      counter := NextCounter(counter);
      if serviced && request.Some? {
        HandleRoot(request.value, commitOk);
      }
      label handled:
      match engine.currentAction
      case None =>
        ran := false;
      case Some(a) =>
        engine.Run(a, now, later);
        ran := true;
    }
  }
}
