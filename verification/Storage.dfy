/**
 * Saving a scored session (app.py lines 95-109): the record's five fields
 * and the name of the file it goes to, `storage/session_{N+1}.json` where
 * N is the number of entries already in the storage directory. Listing
 * the directory and writing the JSON are outside the model; the entry
 * count is an input.
 */
module Storage {
  import opened Text

  /** What one completed session saves. */
  datatype SessionRecord = SessionRecord(
    jobDescription: string,
    resume: string,
    questions: seq<string>,
    answers: seq<string>,
    scoreOutput: string)

  const FilenamePrefix: string := "storage/session_"
  const FilenameSuffix: string := ".json"

  /** The file a session is saved to when the storage directory already
      holds `entryCount` entries. Session numbers start at 1: the number
      read back from the name is one more than the entries that were
      there. */
  function SessionFilename(entryCount: nat): (name: string)
    ensures SessionNumber(name) == Some(entryCount + 1)
  {
    var digits := NatToString(entryCount + 1);
    var name := FilenamePrefix + digits + FilenameSuffix;
    assert name[..|FilenamePrefix|] == FilenamePrefix;
    assert name[|name| - |FilenameSuffix|..] == FilenameSuffix;
    assert name[|FilenamePrefix|..|name| - |FilenameSuffix|] == digits;
    DecimalValueOfNatToString(entryCount + 1);
    name
  }

  /** Reads the session number back out of a file name of that shape. */
  function SessionNumber(name: string): (n: Option<nat>)
  {
    if |name| > |FilenamePrefix| + |FilenameSuffix|
       && name[..|FilenamePrefix|] == FilenamePrefix
       && name[|name| - |FilenameSuffix|..] == FilenameSuffix
       && AllDigits(name[|FilenamePrefix|..|name| - |FilenameSuffix|])
    then Some(DecimalValue(name[|FilenamePrefix|..|name| - |FilenameSuffix|]))
    else None
  }

  /** Different entry counts give different file names. */
  lemma SessionFilenameInjective(c1: nat, c2: nat)
    requires c1 != c2
    ensures SessionFilename(c1) != SessionFilename(c2)
  {
    assert SessionNumber(SessionFilename(c1)) != SessionNumber(SessionFilename(c2));
  }

  /** Saving twice into an empty directory, the first save making it hold
      one entry, writes `session_1.json` and then `session_2.json`. */
  lemma SessionFilenamesFromEmpty()
    ensures SessionFilename(0) == "storage/session_1.json"
    ensures SessionFilename(1) == "storage/session_2.json"
  {
    assert NatToString(1) == "1" && NatToString(2) == "2";
  }
}
