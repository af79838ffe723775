/**
 * The keyboard shortcut hook (src/hooks/useHotkeys.ts): when a key-down event
 * triggers a configured shortcut, and the dispatch loop that runs every
 * shortcut the event triggers.
 *
 * Letter shortcuts are matched on the physical key (`event.code`), so they work
 * whatever the keyboard layout; every other shortcut is matched on the
 * character (`event.key`), ignoring ASCII case.
 */
module Hotkeys {
  import opened Js

  /** A configured shortcut; an absent modifier flag is `false`. The handler is named by the shortcut's position. */
  datatype HotkeyConfig = HotkeyConfig(key: string, ctrl: bool, shift: bool, alt: bool)

  /** The element that has the focus when the key goes down. */
  datatype Target = Target(tagName: string, isContentEditable: bool)

  datatype KeyEvent = KeyEvent(key: string, code: string, ctrlKey: bool, shiftKey: bool, altKey: bool, target: Target)

  /** The physical key code of each Latin letter. */
  const KeyToCode: map<string, string> := map[
    "a" := "KeyA", "b" := "KeyB", "c" := "KeyC", "d" := "KeyD", "e" := "KeyE", "f" := "KeyF",
    "g" := "KeyG", "h" := "KeyH", "i" := "KeyI", "j" := "KeyJ", "k" := "KeyK", "l" := "KeyL",
    "m" := "KeyM", "n" := "KeyN", "o" := "KeyO", "p" := "KeyP", "q" := "KeyQ", "r" := "KeyR",
    "s" := "KeyS", "t" := "KeyT", "u" := "KeyU", "v" := "KeyV", "w" := "KeyW", "x" := "KeyX",
    "y" := "KeyY", "z" := "KeyZ"
  ]

  predicate IsLowerLetter(s: string) {
    |s| == 1 && 'a' <= s[0] <= 'z'
  }

  /** The table holds exactly the 26 lower-case letters, each mapped to `"Key"` and the letter in upper case. */
  lemma KeyToCodeTable(s: string)
    ensures s in KeyToCode <==> IsLowerLetter(s)
    ensures s in KeyToCode ==> KeyToCode[s] == "Key" + [UpperChar(s[0])]
  {
    if IsLowerLetter(s) {
      var c := s[0];
      assert s == [c];
      if c <= 'm' {
        assert c in {'a', 'b', 'c', 'd', 'e', 'f', 'g', 'h', 'i', 'j', 'k', 'l', 'm'};
      } else {
        assert c in {'n', 'o', 'p', 'q', 'r', 's', 't', 'u', 'v', 'w', 'x', 'y', 'z'};
      }
    }
  }

  /** The key test of one shortcut: a letter on its code, any other key on its lower-cased character. */
  predicate KeyMatches(config: HotkeyConfig, event: KeyEvent) {
    var configKeyLower := Lower(config.key);
    if configKeyLower in KeyToCode then event.code == KeyToCode[configKeyLower]
    else Lower(event.key) == configKeyLower
  }

  /** `config.ctrl ? event.ctrlKey : !event.ctrlKey`, and the same for Shift and Alt. */
  predicate ModifiersMatch(config: HotkeyConfig, event: KeyEvent) {
    && (if config.ctrl then event.ctrlKey else !event.ctrlKey)
    && (if config.shift then event.shiftKey else !event.shiftKey)
    && (if config.alt then event.altKey else !event.altKey)
  }

  /** Focus is in a text field: an INPUT, a TEXTAREA or a content-editable element. */
  predicate Editable(t: Target) {
    t.tagName == "INPUT" || t.tagName == "TEXTAREA" || t.isContentEditable
  }

  /** Whether the shortcut's handler runs for this event (the listener being installed). */
  predicate Fires(config: HotkeyConfig, event: KeyEvent) {
    !(Editable(event.target) && config.key != "/")
    && KeyMatches(config, event)
    && ModifiersMatch(config, event)
  }

  /**
   * The key-down listener. `fired` lists, in configuration order, the positions
   * of the shortcuts whose handlers ran; `prevented` tells whether
   * `preventDefault` was called. Without `enabled` no listener is installed.
   */
  method HandleKeyDown(configs: seq<HotkeyConfig>, event: KeyEvent, enabled: bool)
    returns (fired: seq<nat>, prevented: bool)
    ensures forall i :: 0 <= i < |configs| ==> (i in fired <==> enabled && Fires(configs[i], event))
    ensures forall x :: 0 <= x < |fired| ==> fired[x] < |configs|
    ensures forall x, y :: 0 <= x < y < |fired| ==> fired[x] < fired[y]
    ensures prevented <==> fired != []
  {
    fired, prevented := [], false;
    if !enabled {
      return;
    }
    var n := 0;
    while n < |configs|
      invariant 0 <= n <= |configs|
      invariant forall i :: 0 <= i < |configs| ==> (i in fired <==> i < n && Fires(configs[i], event))
      invariant forall x, y :: 0 <= x < y < |fired| ==> fired[x] < fired[y]
      invariant forall x :: 0 <= x < |fired| ==> fired[x] < n
      invariant prevented <==> fired != []
    {
      var config := configs[n];
      var configKeyLower := Lower(config.key);
      var keyMatch := false;
      if configKeyLower in KeyToCode {
        keyMatch := event.code == KeyToCode[configKeyLower];
      } else {
        keyMatch := Lower(event.key) == configKeyLower;
      }
      var ctrlMatch := if config.ctrl then event.ctrlKey else !event.ctrlKey;
      var shiftMatch := if config.shift then event.shiftKey else !event.shiftKey;
      var altMatch := if config.alt then event.altKey else !event.altKey;
      var target := event.target;
      if target.tagName == "INPUT" || target.tagName == "TEXTAREA" || target.isContentEditable {
        if config.key != "/" {
          n := n + 1;
          continue;
        }
      }
      if keyMatch && ctrlMatch && shiftMatch && altMatch {
        prevented := true;
        fired := fired + [n];
      }
      n := n + 1;
    }
  }

  /**
   * A shortcut on a letter (in either case) matches exactly the events whose code
   * is that letter's key code, whatever character the layout produces.
   */
  lemma LetterMatchesByCode(config: HotkeyConfig, event: KeyEvent, c: char)
    requires 'a' <= c <= 'z' && config.key in {[c], [UpperChar(c)]}
    ensures KeyMatches(config, event) <==> event.code == "Key" + [UpperChar(c)]
  {
    assert Lower(config.key) == [c];
    KeyToCodeTable([c]);
  }

  /** Layout independence: two events with the same code and modifiers trigger the same letter shortcuts. */
  lemma LetterIgnoresCharacter(config: HotkeyConfig, e1: KeyEvent, e2: KeyEvent)
    requires IsLowerLetter(Lower(config.key))
    requires e1.code == e2.code && e1.ctrlKey == e2.ctrlKey && e1.shiftKey == e2.shiftKey
             && e1.altKey == e2.altKey && e1.target == e2.target
    ensures Fires(config, e1) <==> Fires(config, e2)
  {
    KeyToCodeTable(Lower(config.key));
  }

  /** Any other shortcut matches exactly the events whose character agrees with it after lower-casing. */
  lemma OtherKeyMatchesByCharacter(config: HotkeyConfig, event: KeyEvent)
    requires !IsLowerLetter(Lower(config.key))
    ensures KeyMatches(config, event) <==> Lower(event.key) == Lower(config.key)
  {
    KeyToCodeTable(Lower(config.key));
  }

  /** Each modifier must be down exactly when the shortcut asks for it. */
  lemma ModifiersExact(config: HotkeyConfig, event: KeyEvent)
    ensures ModifiersMatch(config, event) <==>
              event.ctrlKey == config.ctrl && event.shiftKey == config.shift && event.altKey == config.alt
  {
  }

  /** While a text field has the focus only the `/` shortcut can run. */
  lemma EditableOnlySlash(config: HotkeyConfig, event: KeyEvent)
    requires Editable(event.target)
    ensures Fires(config, event) ==> config.key == "/"
    ensures config.key == "/" ==> (Fires(config, event) <==> Lower(event.key) == "/" && ModifiersMatch(config, event))
  {
    KeyToCodeTable(Lower("/"));
  }

  /**
   * An event that carries a character but no code (the empty code, as a
   * synthetic `KeyboardEvent` made with `key` alone has) never triggers a
   * letter shortcut.
   */
  lemma NoCodeNoLetter(configKey: char, key: string, target: Target)
    requires 'a' <= configKey <= 'z'
    ensures !Fires(HotkeyConfig([configKey], false, false, false), KeyEvent(key, "", false, false, false, target))
  {
    LetterMatchesByCode(HotkeyConfig([configKey], false, false, false), KeyEvent(key, "", false, false, false, target), configKey);
  }
}
