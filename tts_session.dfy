/** The text-to-speech state of the client page: the catalog of voices, the
    voice name remembered from the settings cookie, the voice drop-down, the
    enable checkbox, and the rules for loading settings, repopulating the
    drop-down and deciding what to speak. */
module TtsSession {
  import opened JsValues
  import opened Voices
  import Cookies

  /** The name of the cookie holding the preferences. */
  const SETTINGS_COOKIE: string := "ttsSettings"

  /** The text of the option shown when there is no English voice. */
  const PLACEHOLDER: string := "No English voices available"

  /** What the test button speaks. */
  const TEST_TEXT: string := "Testing the current voice settings."

  /** One `<option>` of the voice drop-down: its text and its `data-name` and
      `data-lang` attributes. */
  datatype VoiceOption = VoiceOption(text: string, dataName: Option<string>, dataLang: Option<string>)

  /** The option populateVoiceList builds for a voice: `name (lang)`. */
  function OptionFor(v: Voice): (o: VoiceOption)
    ensures o.dataName == Some(v.name) && o.dataLang == Some(v.lang)
  {
    VoiceOption(v.name + " (" + v.lang + ")", Some(v.name), Some(v.lang))
  }

  /** The placeholder option: no data attributes. */
  function Placeholder(): (o: VoiceOption)
    ensures o.dataName == None
  {
    VoiceOption(PLACEHOLDER, None, None)
  }

  /** One option per catalog voice, in catalog order. */
  function OptionsFor(catalog: seq<Voice>): (opts: seq<VoiceOption>)
    ensures |opts| == |catalog|
    ensures forall i :: 0 <= i < |catalog| ==> opts[i] == OptionFor(catalog[i])
  {
    seq(|catalog|, i requires 0 <= i < |catalog| => OptionFor(catalog[i]))
  }

  /** The preferences the model follows (rate and pitch are floating point
      and are not modelled). */
  datatype Settings = Settings(enabled: bool, voiceName: Option<string>)

  /** What `JSON.parse` makes of the cookie text: it throws, or gives the
      stored settings. */
  datatype ParseResult = Malformed | Parsed(settings: Settings)

  /** What speakText does: nothing, or (after cancelling the utterance in
      flight when one is) speak `text` with the given voice, where None
      stands for the engine's default voice. */
  datatype SpeakAction = NoOp | Speak(cancelFirst: bool, text: string, voice: Option<Voice>)

  class Session {
    /** The configurable default: a voice of `region` whose name contains
        `marker` (the source hard-codes 'en-GB' and 'David'). */
    const marker: string
    const region: string

    /** The module-level `voices` and `loadedVoiceName`. */
    var voices: seq<Voice>
    var loadedVoiceName: Option<string>

    /** The voice drop-down. */
    var options: seq<VoiceOption>
    var selectedIndex: int
    var disabled: bool

    /** The TTS controls container hidden, and the enable checkbox. */
    var controlsHidden: bool
    var enabled: bool

    constructor (marker: string, region: string)
      ensures this.marker == marker && this.region == region
      ensures voices == [] && loadedVoiceName == None
      ensures options == [] && selectedIndex == -1 && !disabled
      ensures !controlsHidden && !enabled
    {
      this.marker := marker;
      this.region := region;
      voices := [];
      loadedVoiceName := None;
      options := [];
      selectedIndex := -1;
      disabled := false;
      controlsHidden := false;
      enabled := false;
    }

    // ------------------------------------------------------------ settings

    /** loadTTSSettings: reads the settings cookie; a missing or empty value
        means no preference; a value that does not parse is to be cleared and
        means no preference; otherwise the checkbox takes the stored flag and
        the stored voice name is returned. */
    method LoadSettings(cookie: string, parse: string -> ParseResult) returns (voiceName: Option<string>, clearCookie: bool)
      modifies this`enabled
      ensures var saved := Cookies.CookieValue(cookie, SETTINGS_COOKIE);
              voiceName == SavedVoiceName(cookie, parse) && clearCookie == ClearsCookie(cookie, parse) &&
              enabled == EnabledAfterLoad(cookie, parse, old(enabled)) &&
              if !Truthy(saved) then
                voiceName == None && !clearCookie && enabled == old(enabled)
              else if parse(saved.value).Malformed? then
                voiceName == None && clearCookie && enabled == old(enabled)
              else
                voiceName == parse(saved.value).settings.voiceName && !clearCookie &&
                enabled == parse(saved.value).settings.enabled
    {
      var saved := Cookies.GetCookie(cookie, SETTINGS_COOKIE);
      if saved.Some? && saved.value != "" {
        var settings := parse(saved.value);
        if settings.Malformed? {
          return None, true;
        }
        enabled := settings.settings.enabled;
        return settings.settings.voiceName, false;
      }
      return None, false;
    }

    /** `loadedVoiceName = loadTTSSettings()`. */
    method LoadVoiceName(cookie: string, parse: string -> ParseResult) returns (clearCookie: bool)
      modifies this`enabled, this`loadedVoiceName
      ensures clearCookie == ClearsCookie(cookie, parse)
      ensures enabled == EnabledAfterLoad(cookie, parse, old(enabled))
      ensures loadedVoiceName == SavedVoiceName(cookie, parse)
    {
      var name;
      name, clearCookie := LoadSettings(cookie, parse);
      loadedVoiceName := name;
    }

    /** The voice name loadTTSSettings hands to populateVoiceList. */
    static function SavedVoiceName(cookie: string, parse: string -> ParseResult): (n: Option<string>)
      ensures n.Some? ==> Truthy(Cookies.CookieValue(cookie, SETTINGS_COOKIE))
    {
      var saved := Cookies.CookieValue(cookie, SETTINGS_COOKIE);
      if Truthy(saved) && parse(saved.value).Parsed? then parse(saved.value).settings.voiceName else None
    }

    /** loadTTSSettings clears the settings cookie exactly when it is present,
        not empty, and does not parse. */
    static predicate ClearsCookie(cookie: string, parse: string -> ParseResult) {
      var saved := Cookies.CookieValue(cookie, SETTINGS_COOKIE);
      Truthy(saved) && parse(saved.value).Malformed?
    }

    /** The checkbox after loadTTSSettings: the stored flag when the
        settings cookie is present, not empty and parses, else unchanged. */
    static function EnabledAfterLoad(cookie: string, parse: string -> ParseResult, enabled0: bool): bool
    {
      var saved := Cookies.CookieValue(cookie, SETTINGS_COOKIE);
      if Truthy(saved) && parse(saved.value).Parsed? then parse(saved.value).settings.enabled else enabled0
    }

    /** `selectedOptions[0]?.getAttribute('data-name') || null`. */
    function SelectedVoiceName(): (n: Option<string>)
      reads this
      ensures n.Some? ==> 0 <= selectedIndex < |options| && options[selectedIndex].dataName == n && n.value != ""
      ensures n.None? && 0 <= selectedIndex < |options| ==> !Truthy(options[selectedIndex].dataName)
    {
      if 0 <= selectedIndex < |options| && Truthy(options[selectedIndex].dataName)
      then options[selectedIndex].dataName
      else None
    }

    /** saveTTSSettings: the settings object it writes to the cookie. */
    function SettingsToSave(): (s: Settings)
      reads this
      ensures s.enabled == enabled && s.voiceName == SelectedVoiceName()
    {
      Settings(enabled, SelectedVoiceName())
    }

    // ------------------------------------------------------------ drop-down

    /** `appendChild(option)`: a drop-down with nothing selected selects the
        first option added to it. */
    method AppendOption(o: VoiceOption)
      modifies this`options, this`selectedIndex
      ensures options == old(options) + [o]
      ensures selectedIndex == if old(selectedIndex) == -1 then 0 else old(selectedIndex)
    {
      options := options + [o];
      if selectedIndex == -1 {
        selectedIndex := 0;
      }
    }

    /** The selection step of populateVoiceList: `voiceToSelect` worked out
        step by step, forgetting a saved name the catalog lacks. */
    method PickVoice() returns (voiceToSelect: int)
      modifies this`loadedVoiceName
      ensures var sel := ChooseVoice(voices, old(loadedVoiceName), marker, region);
              voiceToSelect == sel.index && loadedVoiceName == sel.loaded
    {
      voiceToSelect := -1;
      if Truthy(loadedVoiceName) {
        var name := loadedVoiceName.value;
        voiceToSelect := FindIndex(voices, (v: Voice) => v.name == name);
        if voiceToSelect == -1 {
          loadedVoiceName := None;
        }
      }
      if voiceToSelect == -1 {
        voiceToSelect := FindIndex(voices, (v: Voice) => IsPreferred(v, marker, region));
        if voiceToSelect == -1 {
          voiceToSelect := FindIndex(voices, (v: Voice) => InRegion(v, region));
          if voiceToSelect == -1 {
            voiceToSelect := 0;
          }
        }
      }
    }

    /** The drop-down part of populateVoiceList: clear it, add one option per
        catalog voice, then select `voiceToSelect`, or disable the drop-down
        and show the placeholder when the catalog is empty. */
    method FillDropDown(voiceToSelect: int)
      modifies this`options, this`selectedIndex, this`disabled
      ensures voices != [] ==>
                && options == OptionsFor(voices)
                && selectedIndex == (if 0 <= voiceToSelect < |voices| then voiceToSelect else 0)
                && disabled == old(disabled)
      ensures voices == [] ==> options == [Placeholder()] && selectedIndex == 0 && disabled
    {
      options := [];
      selectedIndex := -1;
      for i := 0 to |voices|
        invariant options == OptionsFor(voices[..i])
        invariant selectedIndex == if i == 0 then -1 else 0
        invariant disabled == old(disabled)
      {
        assert voices[..i + 1] == voices[..i] + [voices[i]];
        AppendOption(OptionFor(voices[i]));
      }
      assert voices[..|voices|] == voices;

      if 0 <= voiceToSelect < |voices| {
        selectedIndex := voiceToSelect;
      } else if |voices| > 0 {
        selectedIndex := 0;
      } else {
        disabled := true;
        AppendOption(Placeholder());
      }
    }

    /** What populateVoiceList leaves behind when speech synthesis is
        available, for the engine's voice list `reported`, the saved name
        `loaded0` and the drop-down's earlier `disabled0`: the catalog, the
        remembered name as the selection rule leaves it, and a drop-down with
        one option per catalog voice and the chosen voice selected, or the
        disabled placeholder when the catalog is empty. */
    predicate ShowsCatalog(reported: seq<Voice>, loaded0: Option<string>, disabled0: bool)
      reads this
    {
      var sel := ChooseVoice(Catalog(reported), loaded0, marker, region);
      && voices == Catalog(reported)
      && loadedVoiceName == sel.loaded
      && (voices != [] ==> options == OptionsFor(voices) && selectedIndex == sel.index && disabled == disabled0)
      && (voices == [] ==> options == [Placeholder()] && selectedIndex == 0 && disabled)
    }

    /** The catalog and the drop-down are as they were. */
    predicate KeepsCatalog(voices0: seq<Voice>, options0: seq<VoiceOption>, selectedIndex0: int, disabled0: bool)
      reads this
    {
      voices == voices0 && options == options0 && selectedIndex == selectedIndex0 && disabled == disabled0
    }

    /** The synthesis-available part of populateVoiceList: rebuild the
        catalog from the engine's voices, pick the voice to select, and
        rebuild the drop-down. */
    method Rebuild(reported: seq<Voice>)
      modifies this`voices, this`loadedVoiceName, this`options, this`selectedIndex, this`disabled
      ensures ShowsCatalog(reported, old(loadedVoiceName), old(disabled))
    {
      voices := Catalog(reported);
      var voiceToSelect := PickVoice();
      FillDropDown(voiceToSelect);
    }

    /** What populateVoiceList leaves behind, from the saved name `loaded0`
        and the earlier state (`hidden0` for the controls, then the catalog
        and the drop-down): without speech synthesis the controls are hidden
        and nothing else changes; with it the controls are untouched and the
        page shows the catalog built from `reported`. */
    predicate PopulatedFrom(synthAvailable: bool, reported: seq<Voice>, loaded0: Option<string>, hidden0: bool,
                            voices0: seq<Voice>, options0: seq<VoiceOption>, selectedIndex0: int, disabled0: bool)
      reads this
    {
      if synthAvailable then controlsHidden == hidden0 && ShowsCatalog(reported, loaded0, disabled0)
      else controlsHidden && loadedVoiceName == loaded0 && KeepsCatalog(voices0, options0, selectedIndex0, disabled0)
    }

    /** populateVoiceList: without speech synthesis it only hides the
        controls; otherwise it rebuilds the catalog and the drop-down. */
    method Populate(synthAvailable: bool, reported: seq<Voice>)
      modifies this`voices, this`loadedVoiceName, this`options, this`selectedIndex, this`disabled, this`controlsHidden
      ensures PopulatedFrom(synthAvailable, reported, old(loadedVoiceName), old(controlsHidden),
                            old(voices), old(options), old(selectedIndex), old(disabled))
    {
      if !synthAvailable {
        controlsHidden := true;
      } else {
        Rebuild(reported);
      }
    }

    /** After a rebuild with a non-empty catalog the selected option is the
        chosen voice, and the name saved from it is that voice's name (None
        for a voice with an empty name). */
    lemma ShownSelection(reported: seq<Voice>, loaded0: Option<string>, disabled0: bool)
      requires ShowsCatalog(reported, loaded0, disabled0) && voices != []
      ensures 0 <= selectedIndex < |voices| && selectedIndex == ChooseVoice(voices, loaded0, marker, region).index
      ensures SelectedVoiceName() == if voices[selectedIndex].name != "" then Some(voices[selectedIndex].name) else None
    {
    }

    // ------------------------------------------------------------ events

    /** Page load: the settings are read first, then the drop-down is
        populated. */
    method Start(cookie: string, parse: string -> ParseResult, synthAvailable: bool, reported: seq<Voice>)
        returns (clearCookie: bool)
      modifies this`enabled, this`voices, this`loadedVoiceName, this`options, this`selectedIndex, this`disabled, this`controlsHidden
      ensures clearCookie == ClearsCookie(cookie, parse)
      ensures enabled == EnabledAfterLoad(cookie, parse, old(enabled))
      ensures PopulatedFrom(synthAvailable, reported, SavedVoiceName(cookie, parse), old(controlsHidden),
                            old(voices), old(options), old(selectedIndex), old(disabled))
    {
      clearCookie := LoadVoiceName(cookie, parse);
      Populate(synthAvailable, reported);
    }

    /** `onvoiceschanged`: re-read the settings and repopulate, the same two
        steps as at page load, then save the settings again so that a
        fallback selection is remembered. The settings written are
        returned. */
    method OnVoicesChanged(cookie: string, parse: string -> ParseResult, synthAvailable: bool, reported: seq<Voice>)
        returns (clearCookie: bool, written: Settings)
      modifies this
      ensures clearCookie == ClearsCookie(cookie, parse)
      ensures enabled == EnabledAfterLoad(cookie, parse, old(enabled))
      ensures PopulatedFrom(synthAvailable, reported, SavedVoiceName(cookie, parse), old(controlsHidden),
                            old(voices), old(options), old(selectedIndex), old(disabled))
      ensures written == SettingsToSave()
      ensures synthAvailable && voices != [] ==>
                0 <= selectedIndex < |voices| &&
                written.voiceName == (if voices[selectedIndex].name != "" then Some(voices[selectedIndex].name) else None)
      ensures synthAvailable && voices == [] ==> written.voiceName == None
    {
      ghost var disabled0 := disabled;
      clearCookie := Start(cookie, parse, synthAvailable, reported);
      written := SettingsToSave();
      if synthAvailable && voices != [] {
        ShownSelection(reported, SavedVoiceName(cookie, parse), disabled0);
      }
    }

    // ------------------------------------------------------------ speaking

    /** The voice speakText looks up, as written: the first catalog voice
        named by the selected option's `data-name`, or None for the engine's
        default. With two catalog voices of the same name this need not be
        the voice the drop-down shows as selected (see
        DuplicateNameSpeaksAnotherVoice). */
    function SelectedVoice(): (v: Option<Voice>)
      reads this
      ensures v.Some? ==> SelectedVoiceName() == Some(v.value.name) && v.value in voices
      ensures v.Some? ==> exists k :: 0 <= k < |voices| && voices[k] == v.value &&
                            forall j :: 0 <= j < k ==> voices[j].name != v.value.name
      ensures v.None? ==> SelectedVoiceName().None? || forall i :: 0 <= i < |voices| ==> voices[i].name != SelectedVoiceName().value
    {
      var n := SelectedVoiceName();
      if n.None? then None
      else
        var k := FindIndex(voices, (v: Voice) => v.name == n.value);
        if k == -1 then None else Some(voices[k])
    }

    /** The voice the selected option stands for: the first catalog voice
        with the option's `data-name` and its `data-lang`, or None for the
        engine's default. This is the lookup speakText evidently intends; the
        speaking rule below uses it. */
    function ShownVoice(): (v: Option<Voice>)
      reads this
      ensures v.Some? ==> && SelectedVoiceName() == Some(v.value.name) && v.value in voices
                          && options[selectedIndex].dataLang == Some(v.value.lang)
      ensures v.None? ==> SelectedVoiceName().None? ||
                          forall i :: 0 <= i < |voices| ==>
                            Some(voices[i].name) != SelectedVoiceName() || Some(voices[i].lang) != options[selectedIndex].dataLang
    {
      var n := SelectedVoiceName();
      if n.None? then None
      else
        var lang := options[selectedIndex].dataLang;
        var k := FindIndex(voices, (v: Voice) => Some(v.name) == n && Some(v.lang) == lang);
        if k == -1 then None else Some(voices[k])
    }

    /** When the drop-down lists the catalog, the voice spoken with is the
        voice shown as selected (the engine's default for one with an empty
        name, whose option has no usable `data-name`). */
    lemma ShownVoiceIsSelected()
      requires options == OptionsFor(voices) && 0 <= selectedIndex < |voices|
      ensures ShownVoice() == if voices[selectedIndex].name != "" then Some(voices[selectedIndex]) else None
    {
      var w := voices[selectedIndex];
      assert options[selectedIndex] == OptionFor(w);
    }

    /** Where no two catalog voices share a name, the lookup by name alone
        and the corrected lookup agree, so the correction matters only for
        duplicate names. */
    lemma UniqueNamesSameVoice()
      requires options == OptionsFor(voices) && 0 <= selectedIndex < |voices|
      requires forall i, j :: 0 <= i < j < |voices| ==> voices[i].name != voices[j].name
      ensures SelectedVoice() == ShownVoice()
    {
      ShownVoiceIsSelected();
      var w := voices[selectedIndex];
      assert options[selectedIndex] == OptionFor(w);
      if w.name != "" {
        assert SelectedVoiceName() == Some(w.name);
        assert forall k :: 0 <= k < |voices| && voices[k].name == w.name ==> k == selectedIndex;
      }
    }

    /** speakText(text, isTest): a no-op unless this is a test or the checkbox
        is checked, and a no-op without an engine or without text. */
    function SpeakFor(text: string, isTest: bool, synthAvailable: bool, speaking: bool): (a: SpeakAction)
      reads this
      ensures a.NoOp? <==> (!isTest && !enabled) || !synthAvailable || text == ""
      ensures a.Speak? ==> a.text == text && a.cancelFirst == speaking && a.voice == ShownVoice()
    {
      if !isTest && !enabled then NoOp
      else if !synthAvailable || text == "" then NoOp
      else Speak(speaking, text, ShownVoice())
    }

    /** The test button speaks a fixed sentence whatever the checkbox says. */
    method OnTestButton(synthAvailable: bool, speaking: bool) returns (a: SpeakAction)
      ensures a.Speak? <==> synthAvailable
      ensures a.Speak? ==> a.text == TEST_TEXT && a.voice == ShownVoice()
      ensures a.Speak? ==> a.cancelFirst == speaking
    {
      a := SpeakFor(TEST_TEXT, true, synthAvailable, speaking);
    }
  }

  /** Two catalog voices of the same name: with no saved name and no
      preferred voice, the selection rule picks the first voice of the
      region, which is the second of the two, while the lookup by name
      alone finds the first. The corrected lookup finds the selected one. */
  lemma DuplicateNameSpeaksAnotherVoice(s: Session)
    requires s.marker == "David" && s.region == "en-GB"
    requires s.ShowsCatalog([Voice("X", "en-US"), Voice("X", "en-GB")], None, false)
    ensures s.selectedIndex == 1 && s.voices[0] != s.voices[1]
    ensures s.SelectedVoice() == Some(s.voices[0])
    ensures s.ShownVoice() == Some(s.voices[1])
  {
    SameNameCatalog();
    SameNameChoice();
    s.ShownVoiceIsSelected();
  }
}
