/**
 * The flat files the program keeps. A file the program reads with a fallback
 * is modelled by what reading it yields: absent, unreadable or unparsable
 * (both of which the source treats alike), or holding a value. A history file
 * is the sequence of its lines.
 */
module Files {
  import opened Wrappers
  import opened Text

  datatype FileState<T> = Absent | Corrupt | Holds(value: T)

  /** What a read with a fallback returns: the stored value, or `default`
      when the file is absent or cannot be parsed. */
  function ValueOr<T>(f: FileState<T>, default: T): T {
    if f.Holds? then f.value else default
  }

  /** Membership of `h` in `{line.strip() for line in lines}`. */
  predicate HistoryContains(lines: seq<string>, h: string) {
    exists i :: 0 <= i < |lines| && Strip(lines[i]) == h
  }

  predicate IsHexDigit(c: char) {
    '0' <= c <= '9' || 'a' <= c <= 'f'
  }

  /** The shape of `hashlib.sha256(...).hexdigest()`: 64 lower-case hex digits. */
  predicate IsHexDigest(h: string) {
    |h| == 64 && forall i :: 0 <= i < |h| ==> IsHexDigit(h[i])
  }

  /** Appending the line `h` to a history file: append mode creates a missing
      file, and a file that cannot be read stays unreadable. */
  function AppendLine(f: FileState<seq<string>>, h: string): (r: FileState<seq<string>>)
    ensures r.Corrupt? <==> f.Corrupt?
    ensures !f.Corrupt? ==> r == Holds(ValueOr(f, []) + [h])
  {
    match f
    case Absent => assert [] + [h] == [h]; Holds([h])
    case Corrupt => Corrupt
    case Holds(lines) => Holds(lines + [h])
  }

  /** The duplicate check on a history file: no file means no duplicate, an
      unreadable file raises (None), otherwise membership among the stripped
      lines. */
  function DuplicateIn(f: FileState<seq<string>>, h: string): (r: Option<bool>)
    ensures r.None? <==> f.Corrupt?
    ensures f.Absent? ==> r == Some(false)
    ensures r == Some(true) <==> f.Holds? && HistoryContains(f.value, h)
  {
    match f
    case Absent => Some(false)
    case Corrupt => None
    case Holds(lines) => Some(HistoryContains(lines, h))
  }

  /** A digest line reads back as itself. */
  lemma HexDigestIsStripped(h: string)
    requires IsHexDigest(h)
    ensures NoSurroundingSpace(h) && Strip(h) == h
  {
    assert IsHexDigit(h[0]) && IsHexDigit(h[|h| - 1]);
  }

  /** After appending `h` as a line, `h` is in the history. */
  lemma SavedHashIsFound(lines: seq<string>, h: string)
    requires NoSurroundingSpace(h)
    ensures HistoryContains(lines + [h], h)
  {
    assert (lines + [h])[|lines|] == h;
  }

  /** Appending never removes a hash from the history. */
  lemma HistoryIsAppendOnly(lines: seq<string>, h: string, g: string)
    requires HistoryContains(lines, g)
    ensures HistoryContains(lines + [h], g)
  {
    var i :| 0 <= i < |lines| && Strip(lines[i]) == g;
    assert (lines + [h])[i] == lines[i];
  }

  /** Once saved, an image is reported as a duplicate: the round trip between
      the two history operations. */
  lemma SavedImageIsDuplicate(f: FileState<seq<string>>, h: string)
    requires !f.Corrupt? && NoSurroundingSpace(h)
    ensures DuplicateIn(AppendLine(f, h), h) == Some(true)
  {
    SavedHashIsFound(ValueOr(f, []), h);
  }

  /** Saving an image never makes an earlier duplicate disappear. */
  lemma DuplicatesPersist(f: FileState<seq<string>>, h: string, g: string)
    requires DuplicateIn(f, g) == Some(true)
    ensures DuplicateIn(AppendLine(f, h), g) == Some(true)
  {
    HistoryIsAppendOnly(f.value, h, g);
  }
}
