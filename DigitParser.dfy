/**
 * The training-manifest builder of train/digit_asr/parser.py: every
 * recording named `<digit>_<speaker>_....wav` becomes a record, keyed by the
 * file's stem, holding its path, the digit's name, the speaker and its
 * length in frames. Listing the directory, reading the audio header and
 * writing the JSON file are outside the model: the file list and the frame
 * count of each file are inputs.
 */
module DigitParser {
  import opened Wrappers
  import opened PyStr

  /**
   * `vocab`: the name of each digit. The dictionary's keys are exactly 0..9,
   * so it is the list of names indexed by the digit, and a key is present
   * exactly when `0 <= d < |Vocab|`.
   */
  const Vocab: seq<string> :=
    ["zero", "one", "two", "three", "four", "five", "six", "seven", "eight", "nine"]

  /** A key of `vocab`. */
  predicate InVocab(d: int) {
    0 <= d < |Vocab|
  }

  /** One entry of `records`. */
  datatype Record = Record(filePath: string, words: string, spkID: string, length: nat)

  /** The exceptions a file name can raise while its record is built. */
  datatype ParseError =
    | ValueError(field: string)  // the first field is not an integer
    | KeyError(digit: int)       // the integer is not a key of `vocab`
    | IndexError                 // the stem has no second field

  // ---------------------------------------------------------------------
  // Path(p).stem
  // ---------------------------------------------------------------------

  /** The characters after the last '/' of `s`, or all of `s` if it has none. */
  function LastSegment(s: string): (seg: string)
    ensures '/' !in seg
  {
    if s == [] || s[|s| - 1] == '/' then [] else LastSegment(s[..|s| - 1]) + [s[|s| - 1]]
  }

  /**
   * `Path(p).name` for a POSIX path: the last component, where empty
   * components (repeated or trailing slashes) and "." components do not count.
   */
  function Name(path: string): (name: string)
    ensures '/' !in name
  {
    if path == [] then ""
    else if path[|path| - 1] == '/' || LastSegment(path) == "." then Name(path[..|path| - 1])
    else LastSegment(path)
  }

  /** `s.rfind(".")`: the index of the last dot, or -1. */
  function LastDot(s: string): (i: int)
    ensures -1 <= i < |s|
    ensures i >= 0 ==> s[i] == '.'
    ensures forall k :: i < k < |s| ==> s[k] != '.'
  {
    if s == [] then -1
    else if s[|s| - 1] == '.' then |s| - 1
    else LastDot(s[..|s| - 1])
  }

  /** `Path(p).stem`: the name without its final suffix, when it has one. */
  function Stem(path: string): (stem: string)
    ensures '/' !in stem
    ensures |stem| <= |Name(path)| && stem == Name(path)[..|stem|]
    ensures stem == Name(path) || Name(path)[|stem|] == '.'
    ensures Name(path) != [] ==> stem != []
    ensures stem != Name(path) ==> 0 < |stem| < |Name(path)| - 1 && '.' !in Name(path)[|stem| + 1..]
  {
    var name := Name(path);
    var i := LastDot(name);
    if 0 < i < |name| - 1 then name[..i] else name
  }

  /** The last segment of a path that ends in a slash-free segment is that segment. */
  lemma {:induction false} LastSegmentAfterSlash(dir: string, seg: string)
    requires '/' !in seg
    ensures LastSegment(dir + ['/'] + seg) == seg
  {
    if seg == [] {
      assert (dir + ['/'] + seg)[|dir|] == '/';
    } else {
      var p := dir + ['/'] + seg;
      assert p[..|p| - 1] == dir + ['/'] + seg[..|seg| - 1];
      LastSegmentAfterSlash(dir, seg[..|seg| - 1]);
    }
  }

  /** The file `dir/base.wav` has the stem `base`, for any directory. */
  lemma StemOfWavFile(dir: string, base: string)
    requires base != [] && '/' !in base
    ensures Stem(dir + "/" + base + ".wav") == base
  {
    var name := base + ".wav";
    assert '/' !in name by {
      assert forall k :: 0 <= k < |name| ==> name[k] == (if k < |base| then base[k] else ".wav"[k - |base|]);
    }
    var path := dir + "/" + base + ".wav";
    assert path == dir + ['/'] + name;
    LastSegmentAfterSlash(dir, name);
    assert path[|path| - 1] == 'v';
    assert Name(path) == name;
    assert name[..|name| - 1] == base + ".wa";
    assert (base + ".wa")[..|name| - 2] == base + ".w";
    assert (base + ".w")[..|name| - 3] == base + ".";
    assert LastDot(base + ".") == |base|;
    assert LastDot(base + ".w") == |base|;
    assert LastDot(base + ".wa") == |base|;
    assert LastDot(name) == |base|;
    assert name[..|base|] == base;
  }

  // ---------------------------------------------------------------------
  // One record
  // ---------------------------------------------------------------------

  /**
   * The record of one file: `vocab[int(utt_id.split("_")[0])]` is evaluated
   * before `utt_id.split("_")[1]`, so a bad digit field is reported before
   * a missing speaker field.
   */
  function ParseRecord(path: string, numFrames: string -> nat): (r: Result<Record, ParseError>)
    ensures r.Success? ==> r.value.filePath == path && r.value.length == numFrames(path)
    ensures r.Success? ==> r.value.words in Vocab
  {
    var uttId := Stem(path);
    var digitField := FirstField(uttId, '_');
    match ParseInt(digitField)
    case None => Failure(ValueError(digitField))
    case Some(d) =>
      if !InVocab(d) then Failure(KeyError(d))
      else match AfterSep(uttId, '_')
        case None => Failure(IndexError)
        case Some(rest) => Success(Record(path, Vocab[d], FirstField(rest, '_'), numFrames(path)))
  }

  /**
   * Read with Python's `split`: the digit is `int(utt_id.split("_")[0])`,
   * the speaker `utt_id.split("_")[1]`, and a stem that splits into one field
   * only has no speaker.
   */
  lemma ParseRecordBySplit(path: string, numFrames: string -> nat)
    ensures var fields := Split(Stem(path), '_');
      ParseRecord(path, numFrames) ==
        match ParseInt(fields[0])
        case None => Failure(ValueError(fields[0]))
        case Some(d) =>
          if !InVocab(d) then Failure(KeyError(d))
          else if |fields| < 2 then Failure(IndexError)
          else Success(Record(path, Vocab[d], fields[1], numFrames(path)))
  {
    SplitFirstFields(Stem(path), '_');
  }

  /** A valid digit field followed by no "_" leaves the record without a speaker. */
  lemma ParseRecordWithoutSpeaker(path: string, numFrames: string -> nat, stem: string, d: int)
    requires Stem(path) == stem
    requires AfterSep(stem, '_') == None
    requires ParseInt(FirstField(stem, '_')) == Some(d) && InVocab(d)
    ensures ParseRecord(path, numFrames) == Failure(IndexError)
  {
  }

  /** The record of a file, read off its stem's first field and what follows the first "_". */
  lemma ParseRecordOfStem(path: string, numFrames: string -> nat, stem: string, digitField: string, rest: string, d: int)
    requires Stem(path) == stem
    requires FirstField(stem, '_') == digitField && AfterSep(stem, '_') == Some(rest)
    requires ParseInt(digitField) == Some(d)
    ensures ParseRecord(path, numFrames)
      == if InVocab(d) then Success(Record(path, Vocab[d], FirstField(rest, '_'), numFrames(path))) else Failure(KeyError(d))
  {
  }

  /** The stem of `<dir>/<digits>_<speaker><suffix>.wav` and its first two fields. */
  lemma WellNamedFields(dir: string, digits: string, speaker: string, suffix: string)
    requires AllDigits(digits)
    requires '_' !in speaker && '/' !in speaker && '/' !in suffix
    requires suffix == [] || suffix[0] == '_'
    ensures var base := digits + "_" + speaker + suffix;
      && Stem(dir + "/" + digits + "_" + speaker + suffix + ".wav") == base
      && FirstField(base, '_') == digits && AfterSep(base, '_') == Some(speaker + suffix)
      && FirstField(speaker + suffix, '_') == speaker
  {
    var base := digits + "_" + speaker + suffix;
    assert '_' !in digits && '/' !in digits by {
      forall k | 0 <= k < |digits| ensures digits[k] != '_' && digits[k] != '/' {
        assert IsDigitChar(digits[k]);
      }
    }
    assert Stem(dir + "/" + digits + "_" + speaker + suffix + ".wav") == base by {
      assert '/' !in base by {
        assert forall k :: 0 <= k < |base| ==> base[k] in digits || base[k] == '_' || base[k] in speaker || base[k] in suffix;
      }
      StemOfWavFile(dir, base);
      assert dir + "/" + digits + "_" + speaker + suffix + ".wav" == dir + "/" + base + ".wav";
    }
    SpeakerFields(digits, speaker, suffix);
  }

  /** The first field of `<digits>_<speaker><suffix>`, and the first field after its first "_". */
  lemma SpeakerFields(digits: string, speaker: string, suffix: string)
    requires '_' !in digits && '_' !in speaker
    requires suffix == [] || suffix[0] == '_'
    ensures var base := digits + "_" + speaker + suffix;
      && FirstField(base, '_') == digits && AfterSep(base, '_') == Some(speaker + suffix)
      && FirstField(speaker + suffix, '_') == speaker
  {
    assert digits + "_" + speaker + suffix == digits + ['_'] + (speaker + suffix);
    FieldsAtSep(digits, speaker + suffix, '_');
    if suffix == [] {
      assert speaker + suffix == speaker;
      NoSepFields(speaker, '_');
    } else {
      assert speaker + suffix == speaker + ['_'] + suffix[1..];
      FieldsAtSep(speaker, suffix[1..], '_');
    }
  }

  /**
   * A file `<dir>/<n>_<speaker><suffix>.wav`, the suffix empty or starting
   * with "_": the digit's name and the speaker for n in 0..9, and KeyError
   * for any larger n.
   */
  lemma ParseWellNamed(dir: string, n: nat, speaker: string, suffix: string, numFrames: string -> nat)
    requires '_' !in speaker && '/' !in speaker && '/' !in suffix
    requires suffix == [] || suffix[0] == '_'
    ensures var path := dir + "/" + DecimalString(n) + "_" + speaker + suffix + ".wav";
      ParseRecord(path, numFrames)
        == if n < 10 then Success(Record(path, Vocab[n], speaker, numFrames(path))) else Failure(KeyError(n))
  {
    var digits := DecimalString(n);
    WellNamedFields(dir, digits, speaker, suffix);
    ParseIntOfDigits(n);
    ParseRecordOfStem(dir + "/" + digits + "_" + speaker + suffix + ".wav", numFrames,
      digits + "_" + speaker + suffix, digits, speaker + suffix, n);
  }

  /** A stem without "_" whose digit field is valid has no speaker: IndexError. */
  lemma StemWithoutSpeaker(dir: string, d: nat, numFrames: string -> nat)
    requires d < 10
    ensures ParseRecord(dir + "/" + DecimalString(d) + ".wav", numFrames) == Failure(IndexError)
  {
    var digits := DecimalString(d);
    assert '_' !in digits && '/' !in digits by {
      forall k | 0 <= k < |digits| ensures digits[k] != '_' && digits[k] != '/' {
        assert IsDigitChar(digits[k]);
      }
    }
    var path := dir + "/" + digits + ".wav";
    StemOfWavFile(dir, digits);
    NoSepFields(digits, '_');
    ParseIntOfDigits(d);
    ParseRecordWithoutSpeaker(path, numFrames, digits, d);
  }

  /** A negative first field is a number but not a key of `vocab`: `-1_x.wav` raises KeyError(-1). */
  lemma NegativeDigitField(dir: string, numFrames: string -> nat)
    ensures ParseRecord(dir + "/-1_x.wav", numFrames) == Failure(KeyError(-1))
  {
    var path := dir + "/-1_x.wav";
    assert Stem(path) == "-1_x" by {
      StemOfWavFile(dir, "-1_x");
      assert path == dir + "/" + "-1_x" + ".wav";
    }
    assert "-1_x" == "-1" + ['_'] + "x";
    FieldsAtSep("-1", "x", '_');
    ParseIntNegative();
    ParseRecordOfStem(path, numFrames, "-1_x", "-1", "x", -1);
  }

  /** A zero-padded first field names its digit: `07_x.wav` holds `Vocab[7]`, "seven". */
  lemma ZeroPaddedDigitField(dir: string, numFrames: string -> nat)
    ensures var path := dir + "/07_x.wav";
      ParseRecord(path, numFrames) == Success(Record(path, Vocab[7], "x", numFrames(path)))
  {
    var path := dir + "/07_x.wav";
    assert Stem(path) == "07_x" by {
      StemOfWavFile(dir, "07_x");
      assert path == dir + "/" + "07_x" + ".wav";
    }
    assert FirstField("07_x", '_') == "07" && AfterSep("07_x", '_') == Some("x") by {
      assert "07_x" == "07" + ['_'] + "x";
      FieldsAtSep("07", "x", '_');
    }
    NoSepFields("x", '_');
    ParseIntLeadingZeros();
    ParseRecordOfStem(path, numFrames, "07_x", "07", "x", 7);
  }

  /** A first field that `int()` rejects raises ValueError with that field, whatever follows it. */
  lemma NonNumericDigitField(path: string, numFrames: string -> nat)
    requires ParseInt(FirstField(Stem(path), '_')) == None
    ensures ParseRecord(path, numFrames) == Failure(ValueError(FirstField(Stem(path), '_')))
  {
  }

  /** For example, `<dir>/x_jackson_0.wav` raises ValueError for its field "x". */
  lemma NonNumericExample(dir: string, numFrames: string -> nat)
    ensures ParseRecord(dir + "/x_jackson_0.wav", numFrames) == Failure(ValueError("x"))
  {
    assert Stem(dir + "/x_jackson_0.wav") == "x_jackson_0" by {
      StemOfWavFile(dir, "x_jackson_0");
      assert dir + "/x_jackson_0.wav" == dir + "/" + "x_jackson_0" + ".wav";
    }
    assert FirstField("x_jackson_0", '_') == "x";
    assert ParseInt("x") == None;
    NonNumericDigitField(dir + "/x_jackson_0.wav", numFrames);
  }

  // ---------------------------------------------------------------------
  // The records dictionary
  // ---------------------------------------------------------------------

  /**
   * The loop of the module from a given dictionary onwards, for any way of
   * naming (`key`) and parsing (`parse`) a file: each file's record is stored
   * under its key, and the first file that does not parse ends the loop.
   */
  function Insert(records: map<string, Record>, files: seq<string>,
                  key: string -> string, parse: string -> Result<Record, ParseError>)
    : (r: Result<map<string, Record>, ParseError>)
    decreases |files|
    ensures r.Success? ==> records.Keys <= r.value.Keys
    ensures r.Success? ==> forall k :: 0 <= k < |files| ==> key(files[k]) in r.value
  {
    if files == [] then Success(records)
    else match parse(files[0])
      case Failure(e) => Failure(e)
      case Success(rec) =>
        assert forall k :: 0 < k < |files| ==> files[k] == files[1..][k - 1];
        Insert(records[key(files[0]) := rec], files[1..], key, parse)
  }

  /** The dictionary `records` the module builds from the listed files. */
  function Manifest(files: seq<string>, numFrames: string -> nat): (r: Result<map<string, Record>, ParseError>)
    ensures files == [] ==> r == Success(map[])
    ensures r.Success? ==> forall k :: 0 <= k < |files| ==> Stem(files[k]) in r.value
  {
    Insert(map[], files, Stem, path => ParseRecord(path, numFrames))
  }

  /** The module-level loop that fills `records`. */
  method BuildRecords(files: seq<string>, numFrames: string -> nat)
    returns (result: Result<map<string, Record>, ParseError>)
    ensures result == Manifest(files, numFrames)
  {
    ghost var parse := path => ParseRecord(path, numFrames);
    var records: map<string, Record> := map[];
    for i := 0 to |files|
      invariant Insert(records, files[i..], Stem, parse) == Manifest(files, numFrames)
    {
      var uttId := Stem(files[i]);
      var record := ParseRecord(files[i], numFrames);
      assert files[i..][0] == files[i] && files[i..][1..] == files[i + 1..];
      if record.Failure? {
        return Failure(record.error);
      }
      records := records[uttId := record.value];
    }
    return Success(records);
  }

  /** The keys of the listed files. */
  function KeysOf(files: seq<string>, key: string -> string): (s: set<string>)
    ensures forall k :: 0 <= k < |files| ==> key(files[k]) in s
    ensures forall x :: x in s ==> exists k :: 0 <= k < |files| && key(files[k]) == x
    ensures |s| <= |files|
  {
    if files == [] then {}
    else
      var rest := KeysOf(files[1..], key);
      assert forall x :: x in rest ==> exists k :: 0 <= k < |files| && key(files[k]) == x by {
        forall x | x in rest ensures exists k :: 0 <= k < |files| && key(files[k]) == x {
          var k :| 0 <= k < |files[1..]| && key(files[1..][k]) == x;
          assert key(files[k + 1]) == x;
        }
      }
      {key(files[0])} + rest
  }

  /** With pairwise different keys, every file has a key of its own. */
  lemma {:induction false} KeysOfDistinct(files: seq<string>, key: string -> string)
    requires forall j, k :: 0 <= j < k < |files| ==> key(files[j]) != key(files[k])
    ensures |KeysOf(files, key)| == |files|
  {
    if files != [] {
      KeysOfDistinct(files[1..], key);
    }
  }

  /**
   * The loop succeeds exactly when every file parses; otherwise its error is
   * that of the first file that does not.
   */
  lemma {:induction false} InsertOutcome(records: map<string, Record>, files: seq<string>,
                                         key: string -> string, parse: string -> Result<Record, ParseError>)
    decreases |files|
    ensures Insert(records, files, key, parse).Success? <==>
      forall k :: 0 <= k < |files| ==> parse(files[k]).Success?
    ensures Insert(records, files, key, parse).Failure? ==>
      exists k :: 0 <= k < |files|
        && parse(files[k]) == Failure(Insert(records, files, key, parse).error)
        && forall j :: 0 <= j < k ==> parse(files[j]).Success?
  {
    if files != [] {
      match parse(files[0])
      case Failure(e) =>
        assert parse(files[0]) == Failure(Insert(records, files, key, parse).error);
      case Success(rec) =>
        var next := records[key(files[0]) := rec];
        InsertOutcome(next, files[1..], key, parse);
        assert forall k :: 0 < k < |files| ==> files[k] == files[1..][k - 1];
        if Insert(next, files[1..], key, parse).Failure? {
          var k :| 0 <= k < |files[1..]|
            && parse(files[1..][k]) == Failure(Insert(records, files, key, parse).error)
            && forall j :: 0 <= j < k ==> parse(files[1..][j]).Success?;
          assert parse(files[k + 1]) == Failure(Insert(records, files, key, parse).error);
        }
    }
  }

  /** The keys of a successful loop are the earlier keys and the keys of the files. */
  lemma {:induction false} InsertKeys(records: map<string, Record>, files: seq<string>,
                                      key: string -> string, parse: string -> Result<Record, ParseError>)
    requires Insert(records, files, key, parse).Success?
    decreases |files|
    ensures Insert(records, files, key, parse).value.Keys == records.Keys + KeysOf(files, key)
  {
    if files != [] {
      var next := records[key(files[0]) := parse(files[0]).value];
      InsertKeys(next, files[1..], key, parse);
    }
  }

  /** An earlier key that no file has keeps its record. */
  lemma {:induction false} InsertKeeps(records: map<string, Record>, files: seq<string>,
                                       key: string -> string, parse: string -> Result<Record, ParseError>,
                                       x: string)
    requires Insert(records, files, key, parse).Success?
    requires x in records && x !in KeysOf(files, key)
    decreases |files|
    ensures x in Insert(records, files, key, parse).value
    ensures Insert(records, files, key, parse).value[x] == records[x]
  {
    if files != [] {
      var next := records[key(files[0]) := parse(files[0]).value];
      InsertKeeps(next, files[1..], key, parse, x);
    }
  }

  /**
   * The key of a file that no later file shares holds that file's record
   * (a later file with the same key overwrites it).
   */
  lemma {:induction false} InsertLastWins(records: map<string, Record>, files: seq<string>,
                                          key: string -> string, parse: string -> Result<Record, ParseError>,
                                          k: nat)
    requires Insert(records, files, key, parse).Success?
    requires k < |files| && forall j :: k < j < |files| ==> key(files[j]) != key(files[k])
    decreases |files|
    ensures parse(files[k]).Success?
    ensures key(files[k]) in Insert(records, files, key, parse).value
    ensures Insert(records, files, key, parse).value[key(files[k])] == parse(files[k]).value
  {
    var next := records[key(files[0]) := parse(files[0]).value];
    if k > 0 {
      assert files[k] == files[1..][k - 1];
      forall j | k - 1 < j < |files[1..]| ensures key(files[1..][j]) != key(files[1..][k - 1]) {
        assert files[1..][j] == files[j + 1];
      }
      InsertLastWins(next, files[1..], key, parse, k - 1);
    } else {
      forall j | 0 <= j < |files[1..]| ensures key(files[1..][j]) != key(files[0]) {
        assert files[1..][j] == files[j + 1];
      }
      assert key(files[0]) !in KeysOf(files[1..], key);
      InsertKeeps(next, files[1..], key, parse, key(files[0]));
    }
  }

  /**
   * The manifest is built exactly when every file parses, and otherwise fails
   * with the error of the first file that does not.
   */
  lemma ManifestOutcome(files: seq<string>, numFrames: string -> nat)
    ensures Manifest(files, numFrames).Success? <==>
      forall k :: 0 <= k < |files| ==> ParseRecord(files[k], numFrames).Success?
    ensures Manifest(files, numFrames).Failure? ==>
      exists k :: 0 <= k < |files|
        && ParseRecord(files[k], numFrames) == Failure(Manifest(files, numFrames).error)
        && forall j :: 0 <= j < k ==> ParseRecord(files[j], numFrames).Success?
  {
    InsertOutcome(map[], files, Stem, path => ParseRecord(path, numFrames));
  }

  /**
   * A built manifest has one key per distinct stem; under a stem that no
   * later file shares lies that file's record, so the last file with a given
   * stem wins.
   */
  lemma ManifestContents(files: seq<string>, numFrames: string -> nat)
    requires Manifest(files, numFrames).Success?
    ensures Manifest(files, numFrames).value.Keys == set k | 0 <= k < |files| :: Stem(files[k])
    ensures forall k :: 0 <= k < |files| && (forall j :: k < j < |files| ==> Stem(files[j]) != Stem(files[k])) ==>
      ParseRecord(files[k], numFrames).Success?
      && Manifest(files, numFrames).value[Stem(files[k])] == ParseRecord(files[k], numFrames).value
  {
    var parse := path => ParseRecord(path, numFrames);
    InsertKeys(map[], files, Stem, parse);
    forall k | 0 <= k < |files| && (forall j :: k < j < |files| ==> Stem(files[j]) != Stem(files[k]))
      ensures ParseRecord(files[k], numFrames).Success?
      ensures Manifest(files, numFrames).value[Stem(files[k])] == ParseRecord(files[k], numFrames).value
    {
      InsertLastWins(map[], files, Stem, parse, k);
    }
  }

  /**
   * The manifest has at most one record per file, and exactly one per file
   * when the stems are pairwise different.
   */
  lemma ManifestSize(files: seq<string>, numFrames: string -> nat)
    requires Manifest(files, numFrames).Success?
    ensures |Manifest(files, numFrames).value| <= |files|
    ensures (forall j, k :: 0 <= j < k < |files| ==> Stem(files[j]) != Stem(files[k])) ==>
      |Manifest(files, numFrames).value| == |files|
  {
    InsertKeys(map[], files, Stem, path => ParseRecord(path, numFrames));
    if forall j, k :: 0 <= j < k < |files| ==> Stem(files[j]) != Stem(files[k]) {
      KeysOfDistinct(files, Stem);
    }
  }
}
