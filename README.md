# Digit-in-noise hearing test: response handling and digit data

This project models the small string and buffer routines of the
digit-in-noise hearing test that turn raw participant or recogniser output
into test data. It proves what those routines promise. There are four
components and one module of Python built-ins:

- **TestManager** models the two `get_response` bodies and `get_asr` of
  `hearing_test/test_manager.py`:
  - the command-line path maps every typed `'1'`..`'9'` to its English name
    and drops every other character;
  - the speech path splits a transcript on single spaces;
  - `get_asr` picks the recogniser named in the configuration.
- **PatientResponse** models `YesNoAnswer.extract`. It is a
  case-insensitive substring test in which "yes" wins over "no". Its result
  is `Some(true)` for `{"agree": True}`, `Some(false)` for
  `{"agree": False}`, and `None` when the method falls through.
- **SimpleAsr** models the pre- and post-processing of the digit
  recogniser `SimpleASR`:
  - pad or truncate a recording to 44000 samples;
  - widen every non-silent chunk by a fifth of a second of samples and
    clamp it to the recording;
  - join the predicted labels into a transcript.
- **DigitParser** models the module-level loop of
  `train/digit_asr/parser.py`. The loop turns every `<digit>_<speaker>_....wav`
  file into a record keyed by the file's stem. It has three failure cases:
  - `ValueError`: the first field is not a number;
  - `KeyError`: the number is not a digit;
  - `IndexError`: the stem has no second field.
- **PyStr** defines the Python built-ins these routines rely on:
  - `str.split` and `sep.join`;
  - `str.strip()`, with Python's whitespace set;
  - `str.lower()`;
  - `in` on strings;
  - slicing with Python's bound rules;
  - `int()` on a string.

Wrappers holds the `Option` and `Result` types.

Imperative parts are methods:
- `SimpleAsr.SplitDigits` appends one segment per chunk.
- `SimpleAsr.Transcribe` accumulates the text and then strips it.
- `DigitParser.BuildRecords` inserts into the records dictionary.

Each method is proved equal to a specification function, and the lemmas
are about those functions.

Several things become parameters instead of being modelled:
- the neural network, its spectrogram and its arg-max: an opaque
  `classify: seq<int> -> ClassIndex`;
- `detect_nonsilent`: the chunk list, given as an input;
- the directory listing: the list of files;
- `torchaudio.info(...).num_frames`: an opaque `numFrames: string -> nat`.

## Model

| member | source | states |
|---|---|---|
| TestManager.ConvertorTable | hearing_test/test_manager.py:81-91 | the convertor's keys are exactly the characters '1'..'9', and each maps to its name, "one".."nine" in order |
| TestManager.CliResponse | hearing_test/test_manager.py:107-111 | every word of a typed response is one of "one".."nine" |
| TestManager.CliResponseNamesKeptDigits | hearing_test/test_manager.py:107-111 | the response has one word per character '1'..'9' of the typed text, and the k-th word names the k-th such character, so order and repeats are kept |
| TestManager.CliResponseInverse | hearing_test/test_manager.py:107-111 | mapping the words back to digits gives exactly the typed characters '1'..'9', in order |
| TestManager.CliResponseConcat | hearing_test/test_manager.py:107-111 | the response to s + t is the response to s followed by the response to t |
| TestManager.CliResponseDropsOthers | hearing_test/test_manager.py:107-111 | '0', letters, spaces, punctuation and every other character give no word |
| TestManager.AsrResponse | hearing_test/test_manager.py:143 | the speech response has at least one element, no element contains a space, and joining the elements with " " gives back the transcript |
| TestManager.AsrResponseOfJoin | hearing_test/test_manager.py:143 | splitting a join of space-free words gives back those words |
| TestManager.GetAsr | hearing_test/test_manager.py:130-132 | the ARLibrispeech engine exactly when conf["asr"]["type"] == "ARLibrispeech"; NotImplementedError exactly when the type is anything else; KeyError for a missing section or key |
| PatientResponse.Extract | validator/parse_patient_response.py:20-24 | agree exactly when some position spells "yes" in any case; disagree exactly when none spells "yes" and some spells "no"; None exactly when neither occurs |
| PatientResponse.LowerContains | validator/parse_patient_response.py:21-23 | `"yes" in answer.lower()` and `"no" in answer.lower()` hold exactly when the answer spells the word at some position, ignoring case |
| PatientResponse.ExtractIgnoresCase | validator/parse_patient_response.py:21-23 | lower-casing the answer first does not change the result |
| PatientResponse.YesBeatsNo | validator/parse_patient_response.py:21-24 | an answer containing both "yes" and "no" is an agreement |
| PatientResponse.ExtractSurrounded | validator/parse_patient_response.py:21-24 | matching is by substring: text around an agreeing answer keeps it agreeing, and text around a classified answer keeps it classified |
| PatientResponse.SubstringExamples | validator/parse_patient_response.py:21-24 | "eyes" agrees, "I know" disagrees, and "YES, no" agrees |
| SimpleAsr.LabelTable | get_response/asr.py:91-102 | every class 0..9 has a label, made of lower-case letters and non-empty |
| SimpleAsr.PadOrTruncate | get_response/asr.py:146-158 | the features have exactly 44000 samples: the first 44000 of a long recording unchanged, or a short one followed by zeros |
| SimpleAsr.PadOrTruncateIgnoresTrailingZeros | get_response/asr.py:146-158 | trailing zero samples do not change the features, and padding twice is padding once |
| SimpleAsr.AddedWindow | get_response/asr.py:178 | the widening is a fifth of the absolute frame rate, rounded down |
| SimpleAsr.MsToSample | get_response/asr.py:180-187 | a chunk bound in milliseconds becomes the least sample index at or after it |
| SimpleAsr.StartPos | get_response/asr.py:180-183 | the widened start is clamped below at 0 |
| SimpleAsr.EndPos | get_response/asr.py:184-187 | the widened end is clamped above at the recording's length |
| SimpleAsr.Segment | get_response/asr.py:189 | when the end bound is not negative (a negative one would count from the end), a segment has max(0, end - start) samples, and they are the recording's samples from the start position on |
| SimpleAsr.SegmentCoversChunk | get_response/asr.py:176-189 | every sample inside a non-silent chunk lies in that chunk's segment |
| SimpleAsr.SplitDigits | get_response/asr.py:176-190 | one segment per chunk, in chunk order, each the chunk's widened and clamped window |
| SimpleAsr.Words | get_response/asr.py:204-208 | one word per prediction, each one of the ten labels |
| SimpleAsr.Predictions | get_response/asr.py:204-207 | one predicted class per chunk |
| SimpleAsr.SpaceLedStep | get_response/asr.py:208 | each loop step appends a space and the predicted label |
| SimpleAsr.SpaceLedIsJoin | get_response/asr.py:203-208 | the accumulated text is a leading space followed by the labels joined by single spaces |
| SimpleAsr.StripSpaceLed | get_response/asr.py:209 | stripping the accumulated text leaves exactly the labels joined by single spaces |
| SimpleAsr.Transcribe | get_response/asr.py:201-209 | the transcript is the labels of the classes predicted for the chunks' padded segments, in chunk order, joined by single spaces |
| SimpleAsr.TranscriptWords | get_response/asr.py:203-209 | no chunk gives ""; otherwise the transcript has no leading or trailing space, and splitting it on spaces gives one label per chunk, in order |
| PyStr.Split | hearing_test/test_manager.py:143 | `str.split` with a separator gives at least one field |
| PyStr.SplitFieldsHaveNoSep | hearing_test/test_manager.py:143 | no field of a split contains the separator |
| PyStr.JoinSplit | hearing_test/test_manager.py:143 | joining the fields of a split with the separator gives back the string |
| PyStr.SplitJoin | hearing_test/test_manager.py:143 | splitting a join of separator-free fields gives back the fields |
| PyStr.SplitFirstFields | train/digit_asr/parser.py:33-34 | `split(sep)[0]` is the text before the first separator, and a second field exists exactly when there is a separator |
| PyStr.NoSepFields | train/digit_asr/parser.py:33-34 | a string without the separator is its own first field and has no second |
| PyStr.FieldsAtSep | train/digit_asr/parser.py:33-34 | in x + sep + y with no separator in x, the first field is x and the rest is y |
| PyStr.JoinSnoc | get_response/asr.py:208 | appending a field to a non-empty join adds the separator and the field |
| PyStr.JoinEnds | get_response/asr.py:209 | a join of non-empty fields starts with the first field's first character and ends with the last field's last character |
| PyStr.StripLeft | get_response/asr.py:209 | strip removes exactly the leading whitespace: a suffix, all of whose dropped characters are whitespace, and which does not start with whitespace |
| PyStr.StripRight | get_response/asr.py:209 | strip removes exactly the trailing whitespace |
| PyStr.Strip | get_response/asr.py:209 | strip leaves no whitespace at either end, leaves a string without whitespace at its ends unchanged, and empties a string of only whitespace |
| PyStr.StripKeeps | get_response/asr.py:209 | every non-whitespace character survives stripping |
| PyStr.Lower | validator/parse_patient_response.py:21 | lower-casing keeps the length and maps every character on its own |
| PyStr.LowerIdempotent | validator/parse_patient_response.py:21 | lower-casing twice is lower-casing once |
| PyStr.LowerConcat | validator/parse_patient_response.py:21 | lower-casing distributes over concatenation |
| PyStr.Contains | validator/parse_patient_response.py:21-23 | the empty string is in every string, and no string longer than s is in s |
| PyStr.ContainsIffMatch | validator/parse_patient_response.py:21 | `t in s` holds exactly when t occurs at some index of s |
| PyStr.ContainsInfix | validator/parse_patient_response.py:21-24 | a substring of u is a substring of p + u + q |
| PyStr.SliceBound | get_response/asr.py:189 | a slice bound is made non-negative by adding the length, then clamped to 0..length |
| PyStr.Slice | get_response/asr.py:189 | with non-negative bounds the slice has max(0, min(hi, n) - min(lo, n)) elements, taken from lo on |
| PyStr.ParseSigned | train/digit_asr/parser.py:33 | once whitespace is stripped, `int()` accepts only a non-empty text of digits and signs, and a text that starts with a digit is not negative |
| PyStr.ParseSignedDigits | train/digit_asr/parser.py:33 | an optional "+" or "-" followed by one or more digits reads as the value of the digits, negated after "-"; leading zeros are allowed |
| PyStr.ParseSignedShape | train/digit_asr/parser.py:33 | conversely, a text that `int()` accepts after stripping is exactly an optional sign followed by one or more digits |
| PyStr.ParseInt | train/digit_asr/parser.py:33 | `int()` raises ValueError on a string that holds any character other than whitespace, a sign or a digit |
| PyStr.ParseIntUnpadded | train/digit_asr/parser.py:33 | a non-empty text with no whitespace at either end is read as it stands |
| PyStr.ParseIntNegative | train/digit_asr/parser.py:33 | for example, `int("-1") == -1` |
| PyStr.ParseIntLeadingZeros | train/digit_asr/parser.py:33 | for example, `int("07") == 7` |
| PyStr.ParseIntLoneSign | train/digit_asr/parser.py:33 | for example, "+" raises ValueError |
| PyStr.ParseIntInnerSign | train/digit_asr/parser.py:33 | for example, "1-2" raises ValueError |
| PyStr.ParseIntDoubleSign | train/digit_asr/parser.py:33 | for example, "--1" raises ValueError |
| PyStr.ParseIntOfDigits | train/digit_asr/parser.py:33 | `int(str(n)) == n` for every natural number n |
| PyStr.DigitsValueOfDecimalString | train/digit_asr/parser.py:33 | the digits of a number read back as that number |
| PyStr.ParseIntOfDecimalString | train/digit_asr/parser.py:33 | `int()` of a number's decimal digits, with any whitespace around them, is that number |
| DigitParser.LastSegment | train/digit_asr/parser.py:30 | the last path component contains no '/' |
| DigitParser.LastSegmentAfterSlash | train/digit_asr/parser.py:30 | the last component of dir/seg is seg |
| DigitParser.Name | train/digit_asr/parser.py:30 | the name of a path, its last non-empty component, contains no '/' |
| DigitParser.Stem | train/digit_asr/parser.py:30 | the stem is a '/'-free prefix of the name and is non-empty when the name is; it is the whole name, or the part before the last '.' when that dot is neither the first nor the last character |
| DigitParser.LastDot | train/digit_asr/parser.py:30 | `rfind(".")`: -1, or the index of a dot after which no dot follows |
| DigitParser.StemOfWavFile | train/digit_asr/parser.py:30 | the stem of dir/base.wav is base, whatever the directory |
| DigitParser.ParseRecord | train/digit_asr/parser.py:31-35 | a parsed record holds the path unchanged, the given frame count, and one of the ten digit names |
| DigitParser.ParseRecordBySplit | train/digit_asr/parser.py:33-34 | the record follows `int(utt_id.split("_")[0])` and `utt_id.split("_")[1]`: ValueError for a non-number, KeyError outside 0..9, IndexError for a single field, checked in that order |
| DigitParser.WellNamedFields | train/digit_asr/parser.py:30-34 | a file digits_speaker[_...].wav has the stem digits_speaker[_...], whose first field is the digits and whose second is the speaker |
| DigitParser.SpeakerFields | train/digit_asr/parser.py:33-34 | the first and second "_" fields of digits_speaker[_...] |
| DigitParser.ParseWellNamed | train/digit_asr/parser.py:30-35 | n_speaker[_...].wav gives the record (path, vocab[n], speaker, frames) for n in 0..9, and KeyError for any larger n |
| DigitParser.StemWithoutSpeaker | train/digit_asr/parser.py:34 | a stem that is only a valid digit raises IndexError |
| DigitParser.ParseRecordOfStem | train/digit_asr/parser.py:33-35 | once the first field is a number d and the stem has a second field: the record (path, vocab[d], speaker, frames) for d in 0..9, KeyError otherwise |
| DigitParser.ParseRecordWithoutSpeaker | train/digit_asr/parser.py:34 | a valid digit field with no "_" after it raises IndexError |
| DigitParser.NonNumericDigitField | train/digit_asr/parser.py:33 | any first field that `int()` rejects raises ValueError carrying that field, whatever follows it |
| DigitParser.NonNumericExample | train/digit_asr/parser.py:33 | for example, x_jackson_0.wav raises ValueError for "x" |
| DigitParser.NegativeDigitField | train/digit_asr/parser.py:33-34 | for example, -1_x.wav raises KeyError(-1): the field is a number, but not a key of `vocab` |
| DigitParser.ZeroPaddedDigitField | train/digit_asr/parser.py:33-35 | for example, 07_x.wav gives the record of `vocab[7]` ("seven") with speaker "x" |
| DigitParser.Insert | train/digit_asr/parser.py:29-36 | a successful run of the loop keeps every earlier key and has a key for every file |
| DigitParser.Manifest | train/digit_asr/parser.py:29-36 | no files give an empty dictionary, and a built dictionary has every file's stem as a key |
| DigitParser.BuildRecords | train/digit_asr/parser.py:29-36 | the loop's dictionary, or its first error, is the manifest of the file list |
| DigitParser.KeysOf | train/digit_asr/parser.py:30-31 | the set of keys is exactly the files' keys, and there are no more of them than files |
| DigitParser.KeysOfDistinct | train/digit_asr/parser.py:29-36 | pairwise different keys give one key per file |
| DigitParser.InsertOutcome | train/digit_asr/parser.py:29-36 | the loop succeeds exactly when every file parses, and otherwise fails with the error of the first file that does not |
| DigitParser.InsertKeys | train/digit_asr/parser.py:31 | the finished dictionary's keys are the earlier keys plus the files' keys |
| DigitParser.InsertKeeps | train/digit_asr/parser.py:31 | an earlier entry whose key no file has is left unchanged |
| DigitParser.InsertLastWins | train/digit_asr/parser.py:31 | the key of a file that no later file shares holds that file's record, so a later file with the same key overwrites it |
| DigitParser.ManifestOutcome | train/digit_asr/parser.py:29-36 | the records are built exactly when every file parses; otherwise the first failing file's error is raised |
| DigitParser.ManifestContents | train/digit_asr/parser.py:30-31 | the records' keys are exactly the files' stems, and the last file with a given stem supplies its record |
| DigitParser.ManifestSize | train/digit_asr/parser.py:29-36 | there are at most as many records as files, and exactly as many when the stems are pairwise different |

## Left out

- The adaptive SNR staircase is not modelled. `DigitInNoise.get_next_snr` is a stub that returns 0 (hearing_test/test_logic.py:37), so there is no reversal or threshold logic to model, and the staircase (the next-SNR rule, reversal counting and the threshold estimate) has no source counterpart.
- Constructing a test manager is not modelled: reading the YAML configuration, opening audio devices, and loading the text-to-speech and noise generators (hearing_test/test_manager.py:26-50). The two `get_response` bodies are modelled as pure functions of the captured string.
- TestManager.GetAsr: configuration values are modelled as strings. The import of `ARLibrispeech` from `get_response.asr` fails in the repository, because that class lives in asr/asr.py; only the selection rule is modelled.
- Recording from the microphone, `input()` on the command line, the recorder's timeouts and RMS, noise generation, playback and calibration are I/O or floating point, and are not part of this model.
- SimpleAsr.Predictions: the recogniser is an opaque `classify` over the 44000-sample features. The STFT spectrogram, the network and the softmax/arg-max are TensorFlow numerics.
- SimpleAsr.AddedWindow: `frame_rate * 0.2` is computed exactly as |frame_rate| / 5 rounded down, where the source computes it in floating point. For an integer frame rate the two differ only when float rounding moves a product across an integer.
- SimpleAsr.MsToSample: `ceil(ms / 1000 * frame_rate)` is computed exactly as an integer ceiling division. The float rounding of the division and the product is not modelled.
- SimpleAsr.SplitDigits: `detect_nonsilent` (silence detection in pydub) is not modelled; its chunk list is an input. Reading the file with TensorFlow and with pydub is not modelled either; one sequence of samples and one frame rate stand for both.
- PyStr.Lower: only 'A'..'Z' are lower-cased. No other character lower-cases to a letter of "yes" or "no", so the yes/no result is the same as with full Unicode lower-casing.
- PyStr.ParseInt: only the ASCII digits are digits. Python's `int()` also accepts other Unicode decimal digits and underscores between digits; underscores cannot reach it here, because the field is cut at the first "_".
- DigitParser.Stem: only POSIX paths are modelled. Drive letters and backslash separators are not.
- DigitParser.Manifest: `records` is a Dafny map, so Python's dictionary insertion order is not modelled. That order fixes the order of data.json, and an overwritten key keeps its first position.
- SimpleAsr.PadOrTruncate: samples are integers, where TensorFlow holds float32 values. Padding, truncation and slicing never compute with the samples, so only the element type differs.
- Listing the recordings with `glob`, reading frame counts with `torchaudio.info`, and writing `data.json` are I/O. The file list and the frame count of each file are inputs.
- validator/wordnet.py, sentence_generator/questions.py and sentence_generator/generator.py are not part of this model. They use NLTK, have empty method bodies, or yield a constant list.
- The SpeechBrain recogniser, tts/tts.py, asr/asr.py and the training script are not part of this model. They are library wrappers.
