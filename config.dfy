/**
 * The camera settings read from the environment: the `USE_ESP32` flag and
 * the `ESP32_URL` address. An environment variable is `None` when unset.
 */
module Config {
  import opened Wrappers

  /** The words that switch the ESP32-CAM mode on, compared after lowercasing. */
  const TrueWords: set<string> := {"true", "1", "yes"}

  /** Used for `USE_ESP32` when it is unset. */
  const DefaultUseEsp32: string := "True"

  /** Used for `ESP32_URL` when it is unset. */
  const DefaultEsp32Url: string := "YOUR_URL"

  datatype Settings = Settings(useEsp32: bool, esp32Url: string)

  /** ASCII lowercasing of one character. */
  function LowerChar(c: char): char {
    if 'A' <= c <= 'Z' then (c as int + 32) as char else c
  }

  /** `s.lower()` on ASCII text. */
  function Lower(s: string): (r: string)
    ensures |r| == |s|
    ensures forall i :: 0 <= i < |s| ==> r[i] == LowerChar(s[i])
  {
    if s == [] then [] else [LowerChar(s[0])] + Lower(s[1..])
  }

  /** `os.getenv('USE_ESP32', 'True').lower() in ('true', '1', 'yes')`. */
  predicate ParseUseEsp32(value: Option<string>) {
    Lower(value.GetOr(DefaultUseEsp32)) in TrueWords
  }

  /** `os.getenv('ESP32_URL', 'YOUR_URL')`. */
  function ParseEsp32Url(value: Option<string>): (url: string)
    ensures value.None? ==> url == DefaultEsp32Url
    ensures value.Some? ==> url == value.value
  {
    value.GetOr(DefaultEsp32Url)
  }

  /**
   * The two settings, from the values of `USE_ESP32` and `ESP32_URL`: ESP32
   * mode is on exactly when the flag is unset or spells "true", "1" or "yes"
   * in any mixture of cases, and an unset URL is the placeholder.
   */
  function Load(useEsp32: Option<string>, esp32Url: Option<string>): (s: Settings)
    ensures s.useEsp32 <==>
              useEsp32.None? || SameIgnoringCase(useEsp32.value, "true")
              || SameIgnoringCase(useEsp32.value, "1") || SameIgnoringCase(useEsp32.value, "yes")
    ensures s.esp32Url == if esp32Url.None? then "YOUR_URL" else esp32Url.value
  {
    UseEsp32Exactly(useEsp32);
    Settings(ParseUseEsp32(useEsp32), ParseEsp32Url(esp32Url))
  }

  /**
   * `s` spells the lower-case word `w` in any mixture of cases: character by
   * character it is either the same, or the upper-case form of a letter.
   */
  ghost predicate SameIgnoringCase(s: string, w: string) {
    |s| == |w| &&
    forall i :: 0 <= i < |s| ==>
      s[i] == w[i] || ('a' <= w[i] <= 'z' && s[i] as int == w[i] as int - 32)
  }

  /** Lowercasing `s` gives the lower-case word `w` exactly when `s` spells `w` ignoring case. */
  lemma LowerMatchesIgnoringCase(s: string, w: string)
    requires forall i :: 0 <= i < |w| ==> !('A' <= w[i] <= 'Z')
    ensures Lower(s) == w <==> SameIgnoringCase(s, w)
  {
    if SameIgnoringCase(s, w) {
      assert forall i :: 0 <= i < |s| ==> Lower(s)[i] == w[i];
      assert Lower(s) == w;
    }
  }

  /**
   * The flag is on exactly when the variable is unset, or spells "true", "1"
   * or "yes" in any mixture of cases; every other value turns it off.
   */
  lemma UseEsp32Exactly(value: Option<string>)
    ensures ParseUseEsp32(value) <==>
              value.None? || SameIgnoringCase(value.value, "true")
              || SameIgnoringCase(value.value, "1") || SameIgnoringCase(value.value, "yes")
  {
    if value.None? {
      assert Lower(DefaultUseEsp32) == "true";
    } else {
      LowerMatchesIgnoringCase(value.value, "true");
      LowerMatchesIgnoringCase(value.value, "1");
      LowerMatchesIgnoringCase(value.value, "yes");
    }
  }

  /** Values the configuration accepts and rejects. */
  lemma UseEsp32Examples()
    ensures ParseUseEsp32(None)
    ensures ParseUseEsp32(Some("YES")) && ParseUseEsp32(Some("True")) && ParseUseEsp32(Some("1"))
    ensures !ParseUseEsp32(Some("")) && !ParseUseEsp32(Some("0"))
    ensures !ParseUseEsp32(Some("false")) && !ParseUseEsp32(Some("on"))
  {
    assert Lower(DefaultUseEsp32) == "true";
    assert Lower("YES") == "yes";
    assert Lower("1") == "1";
    assert Lower("0") == "0";
    assert Lower("false") == "false";
    assert Lower("on") == "on";
  }
}
