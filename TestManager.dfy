/**
 * How the two test managers of hearing_test/test_manager.py turn what the
 * participant produced into a list of words, and how the ASR manager picks
 * its speech recogniser from the configuration.
 */
module TestManager {
  import opened Wrappers
  import opened PyStr

  // ---------------------------------------------------------------------
  // CliTestManager.get_response
  // ---------------------------------------------------------------------

  /** `CliTestManager.digit_convertor`: the typed digits one to nine and their names. */
  const DigitConvertor: map<char, string> := map[
    '1' := "one", '2' := "two", '3' := "three", '4' := "four", '5' := "five",
    '6' := "six", '7' := "seven", '8' := "eight", '9' := "nine"]

  /** The names of one to nine in order, an independent statement of the table. */
  const DigitNames: seq<string> :=
    ["one", "two", "three", "four", "five", "six", "seven", "eight", "nine"]

  predicate IsNonZeroDigit(c: char) {
    '1' <= c <= '9'
  }

  /** The convertor knows exactly the characters '1'..'9', and names each by its place in `DigitNames`. */
  lemma ConvertorTable(c: char)
    ensures c in DigitConvertor <==> IsNonZeroDigit(c)
    ensures IsNonZeroDigit(c) ==> DigitConvertor[c] == DigitNames[c as int - '1' as int]
  {
  }

  /**
   * `CliTestManager.get_response` on the typed string: every character that
   * is a key of the convertor becomes its name, in typing order; every other
   * character is dropped.
   */
  function CliResponse(typed: string): (words: seq<string>)
    ensures forall k :: 0 <= k < |words| ==> words[k] in DigitNames
  {
    if typed == [] then []
    else
      ConvertorTable(typed[0]);
      (if typed[0] in DigitConvertor then [DigitConvertor[typed[0]]] else [])
      + CliResponse(typed[1..])
  }

  /** The characters of `s` that are '1'..'9', in order and with repeats. */
  function KeptDigits(s: string): (d: string)
    ensures forall k :: 0 <= k < |d| ==> IsNonZeroDigit(d[k])
    ensures |d| <= |s|
  {
    if s == [] then []
    else (if IsNonZeroDigit(s[0]) then [s[0]] else []) + KeptDigits(s[1..])
  }

  /**
   * The typed response yields one word per kept digit, in the same order,
   * each the name of that digit.
   */
  lemma {:induction false} CliResponseNamesKeptDigits(typed: string)
    ensures |CliResponse(typed)| == |KeptDigits(typed)|
    ensures forall k :: 0 <= k < |CliResponse(typed)| ==>
      CliResponse(typed)[k] == DigitNames[KeptDigits(typed)[k] as int - '1' as int]
  {
    if typed != [] {
      CliResponseNamesKeptDigits(typed[1..]);
      ConvertorTable(typed[0]);
    }
  }

  /** Reading a name back as the digit it names. */
  function NameToDigit(w: string): (c: char)
    requires w in DigitNames
    ensures IsNonZeroDigit(c) && DigitNames[c as int - '1' as int] == w
  {
    if w == "one" then '1' else if w == "two" then '2' else if w == "three" then '3'
    else if w == "four" then '4' else if w == "five" then '5' else if w == "six" then '6'
    else if w == "seven" then '7' else if w == "eight" then '8' else '9'
  }

  /** Reading every word of a CLI response back gives exactly the kept digits. */
  lemma CliResponseInverse(typed: string)
    ensures var words := CliResponse(typed);
      seq(|words|, k requires 0 <= k < |words| => NameToDigit(words[k])) == KeptDigits(typed)
  {
    var words := CliResponse(typed);
    var d := KeptDigits(typed);
    CliResponseNamesKeptDigits(typed);
    forall k | 0 <= k < |words|
      ensures NameToDigit(words[k]) == d[k]
    {
      var c := NameToDigit(words[k]);
      assert DigitNames[c as int - '1' as int] == DigitNames[d[k] as int - '1' as int];
    }
  }

  /** The CLI response of a concatenation is the concatenation of the responses. */
  lemma {:induction false} CliResponseConcat(s: string, t: string)
    ensures CliResponse(s + t) == CliResponse(s) + CliResponse(t)
  {
    if s == [] {
      assert s + t == t;
    } else {
      assert (s + t)[0] == s[0] && (s + t)[1..] == s[1..] + t;
      CliResponseConcat(s[1..], t);
    }
  }

  /** '0', letters, spaces and punctuation contribute nothing. */
  lemma CliResponseDropsOthers(c: char)
    requires !IsNonZeroDigit(c)
    ensures CliResponse([c]) == []
  {
    ConvertorTable(c);
  }

  // ---------------------------------------------------------------------
  // ASRTestManager.get_response and get_asr
  // ---------------------------------------------------------------------

  /**
   * `ASRTestManager.get_response` after the transcript is obtained:
   * `transcribe.split(" ")`.
   */
  function AsrResponse(transcript: string): (words: seq<string>)
    ensures |words| >= 1
    ensures forall k :: 0 <= k < |words| ==> ' ' !in words[k]
    ensures Join(words, ' ') == transcript
  {
    SplitFieldsHaveNoSep(transcript, ' ');
    JoinSplit(transcript, ' ');
    Split(transcript, ' ')
  }

  /** Words without spaces, joined by single spaces, come back from the ASR manager unchanged. */
  lemma AsrResponseOfJoin(words: seq<string>)
    requires |words| >= 1
    requires forall k :: 0 <= k < |words| ==> ' ' !in words[k]
    ensures AsrResponse(Join(words, ' ')) == words
  {
    SplitJoin(words, ' ');
  }

  /** The speech recognisers `get_asr` knows. */
  datatype AsrEngine = ARLibrispeech

  /** What `get_asr` raises: a missing configuration key, or an unknown recogniser type. */
  datatype ConfigError = KeyError(key: string) | NotImplementedError

  /** The loaded configuration, by section and key. */
  type Config = map<string, map<string, string>>

  /** `ASRTestManager.get_asr`: the recogniser named by `conf["asr"]["type"]`. */
  function GetAsr(conf: Config): (r: Result<AsrEngine, ConfigError>)
    ensures r == Success(ARLibrispeech) <==>
      "asr" in conf && "type" in conf["asr"] && conf["asr"]["type"] == "ARLibrispeech"
    ensures r == Failure(NotImplementedError) <==>
      "asr" in conf && "type" in conf["asr"] && conf["asr"]["type"] != "ARLibrispeech"
    ensures r == Failure(KeyError("asr")) <==> "asr" !in conf
    ensures r == Failure(KeyError("type")) <==> "asr" in conf && "type" !in conf["asr"]
  {
    if "asr" !in conf then Failure(KeyError("asr"))
    else if "type" !in conf["asr"] then Failure(KeyError("type"))
    else if conf["asr"]["type"] == "ARLibrispeech" then Success(ARLibrispeech)
    else Failure(NotImplementedError)
  }
}
