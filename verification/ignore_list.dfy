/**
 The ignore list: qualified method names that are deliberately never called.
 It is read one line at a time; empty lines and lines starting with `#` are
 comments. Lines are kept exactly as read (no trimming), and duplicates collapse.
 */
module IgnoreList {
  import opened ProgramModel

  /** A line that names an ignored method: non-empty and not a `#` comment. */
  predicate IsEntry(line: string)
  {
    |line| > 0 && line[0] != '#'
  }

  /** The set built by `ReadLines` from the lines of a readable file. */
  function EntriesOf(lines: seq<string>): (r: set<string>)
    ensures forall l :: l in r <==> l in lines && IsEntry(l)
    decreases |lines|
  {
    if |lines| == 0 then
      {}
    else
      var rest := EntriesOf(lines[1..]);
      assert lines == [lines[0]] + lines[1..];
      if IsEntry(lines[0]) then {lines[0]} + rest else rest
  }

  /** `ReadLines` on a file that is either unreadable (`None`) or has the given
      lines. The failure check on an unreadable file never fires, so such a
      file reads as an empty ignore list. */
  function ReadLines(file: Option<seq<string>>): (r: set<string>)
    ensures file.None? ==> r == {}
    ensures file.Some? ==> forall l :: l in r <==> l in file.value && IsEntry(l)
  {
    match file
    case None => {}
    case Some(lines) => EntriesOf(lines)
  }

  /** Appending lines to a readable ignore list only adds the appended entries. */
  lemma AppendedLinesExtend(lines: seq<string>, extra: seq<string>)
    ensures EntriesOf(lines + extra) == EntriesOf(lines) + EntriesOf(extra)
  {
  }
}
