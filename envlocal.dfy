/**
 * `loadEnvLocal` of src/index.ts: a line-oriented KEY=VALUE reader that
 * adds the keys of `.env.local` to `process.env` without overwriting any.
 * The file is passed in as its contents (None when it does not exist).
 */
module EnvLocal {
  import opened Wrappers
  import opened Text

  /** A piece of a split at '\n' without the '\r' that ended it, if any. */
  function DropCR(piece: string): (line: string)
    ensures forall c :: c in line ==> c in piece
  {
    if EndsInCR(piece) then piece[..|piece| - 1] else piece
  }

  /**
   * `content.split(/\r?\n/)`: split at '\n', dropping one '\r' just before
   * each '\n'; the last piece ends the text, not a line break, and keeps it.
   */
  function SplitLines(content: string): (lines: seq<string>)
    ensures |lines| == Count(content, '\n') + 1
    ensures forall i :: 0 <= i < |lines| ==> '\n' !in lines[i]
  {
    var parts := Split(content, '\n');
    SplitCount(content, '\n');
    var lines := seq(|parts|, i requires 0 <= i < |parts| => if i < |parts| - 1 then DropCR(parts[i]) else parts[i]);
    assert forall i :: 0 <= i < |lines| ==> '\n' !in lines[i] by {
      forall i | 0 <= i < |lines| ensures '\n' !in lines[i] {
        assert parts[i] in parts;
      }
    }
    lines
  }

  /** A piece of the text that ends in '\r'. */
  predicate EndsInCR(piece: string)
  {
    |piece| > 0 && piece[|piece| - 1] == '\r'
  }

  /**
   * How the lines relate to the pieces between '\n's: a piece that ends
   * in '\r' (a "\r\n" break) is its line plus that '\r', any other piece
   * before a break is its line, and the last piece is the last line as is.
   */
  lemma SplitLinesPieces(content: string)
    ensures var parts := Split(content, '\n');
      var lines := SplitLines(content);
      && |lines| == |parts|
      && (forall i :: 0 <= i < |parts| - 1 ==> parts[i] == lines[i] + (if EndsInCR(parts[i]) then "\r" else ""))
      && lines[|lines| - 1] == parts[|parts| - 1]
  {
    var parts := Split(content, '\n');
    forall i | 0 <= i < |parts| - 1
      ensures parts[i] == SplitLines(content)[i] + (if EndsInCR(parts[i]) then "\r" else "")
    {
      LineOfPiece(content, i);
    }
  }

  /** One piece before a break and its line. */
  lemma LineOfPiece(content: string, i: nat)
    requires i < |Split(content, '\n')| - 1
    ensures var piece := Split(content, '\n')[i];
      piece == SplitLines(content)[i] + (if EndsInCR(piece) then "\r" else "")
  {
    var piece := Split(content, '\n')[i];
    var line := SplitLines(content)[i];
    assert line == DropCR(piece);
    if EndsInCR(piece) {
      assert piece == piece[..|piece| - 1] + "\r";
    }
  }

  /**
   * One line: None for a blank line, a '#' comment or a line without '=';
   * otherwise the trimmed text before the first '=' and the trimmed text
   * after it.
   */
  function ParseLine(line: string): Option<(string, string)>
  {
    var trimmed := Trim(line);
    if |trimmed| == 0 || trimmed[0] == '#' then None
    else
      var eqIdx := IndexOf(trimmed, '=');
      if eqIdx == -1 then None
      else Some((Trim(trimmed[..eqIdx]), Trim(trimmed[eqIdx + 1..])))
  }

  /**
   * A line contributes nothing exactly when it is blank, a comment or has no
   * '='; a key never contains '=' (a value may), and both are trimmed.
   */
  lemma ParseLineResult(line: string)
    ensures var kv := ParseLine(line);
      && (kv.None? <==> Trim(line) == "" || Trim(line)[0] == '#' || '=' !in line)
      && (kv.Some? ==> '=' !in kv.value.0 && IsTrimmed(kv.value.0) && IsTrimmed(kv.value.1))
  {
    EqualsSurvivesTrim(line);
    var trimmed := Trim(line);
    if |trimmed| > 0 && trimmed[0] != '#' && '=' in trimmed {
      KeyHasNoEquals(trimmed);
    }
  }

  /** Trimming neither adds nor removes an '='. */
  lemma EqualsSurvivesTrim(line: string)
    ensures '=' in Trim(line) <==> '=' in line
  {
    TrimKeepsText(line);
  }

  /** The trimmed text before the first '=' has no '='. */
  lemma KeyHasNoEquals(trimmed: string)
    requires '=' in trimmed
    ensures '=' !in Trim(trimmed[..IndexOf(trimmed, '=')])
  {
    var before := trimmed[..IndexOf(trimmed, '=')];
    TrimKeepsText(before);
  }

  /** The pieces `ParseLine` cuts out of a `KEY=VALUE` line with trimmed parts. */
  lemma AssignmentPieces(key: string, value: string)
    requires IsTrimmed(key) && IsTrimmed(value) && '=' !in key
    requires key == "" || key[0] != '#'
    ensures var line := key + "=" + value;
      && Trim(line) == line && |line| > 0 && line[0] != '#'
      && IndexOf(line, '=') == |key|
      && line[..|key|] == key && line[|key| + 1..] == value
  {
    var line := key + "=" + value;
    assert IsTrimmed(line);
    TrimTrimmed(line);
    assert line[|key|] == '=';
    assert line[..|key|] == key;
    assert line[|key| + 1..] == value;
    if key == "" {
      assert line[0] == '=';
    } else {
      assert line[0] == key[0];
    }
  }

  /** `ParseLine` on a trimmed line, not a comment, whose first '=' separates two trimmed pieces. */
  lemma ParseTrimmedLine(line: string, key: string, value: string)
    requires Trim(line) == line && |line| > 0 && line[0] != '#'
    requires IndexOf(line, '=') == |key| && line[..|key|] == key && line[|key| + 1..] == value
    requires Trim(key) == key && Trim(value) == value
    ensures ParseLine(line) == Some((key, value))
  {
  }

  /** A `KEY=VALUE` line with trimmed parts, a key without '=' and not starting with '#', reads back as that pair. */
  lemma ParseAssignment(key: string, value: string)
    requires IsTrimmed(key) && IsTrimmed(value)
    requires '=' !in key && (key == "" || key[0] != '#')
    ensures ParseLine(key + "=" + value) == Some((key, value))
  {
    AssignmentPieces(key, value);
    TrimTrimmed(key);
    TrimTrimmed(value);
    ParseTrimmedLine(key + "=" + value, key, value);
  }

  /** What one line contributes: a key and its value, or nothing. */
  type Entry = Option<(string, string)>

  /** The lines, each parsed on its own. */
  function ParseLines(lines: seq<string>): (entries: seq<Entry>)
    ensures |entries| == |lines|
    ensures forall i :: 0 <= i < |lines| ==> entries[i] == ParseLine(lines[i])
  {
    seq(|lines|, i requires 0 <= i < |lines| => ParseLine(lines[i]))
  }

  /** One entry's effect: its key is added only when it is not already present. */
  function Apply(env: map<string, string>, entry: Entry): (result: map<string, string>)
    ensures result.Keys == env.Keys + EntryKey(entry)
    ensures forall k :: k in env ==> result[k] == env[k]
  {
    match entry
    case None => env
    case Some((key, value)) => if key in env then env else env[key := value]
  }

  /** The effect of the entries in order. */
  function ApplyAll(env: map<string, string>, entries: seq<Entry>): map<string, string>
    decreases |entries|
  {
    if |entries| == 0 then env else Apply(ApplyAll(env, entries[..|entries| - 1]), entries[|entries| - 1])
  }

  /** Taking one more entry is applying it to the result so far. */
  lemma ApplyAllSnoc(env: map<string, string>, entries: seq<Entry>, n: nat)
    requires n < |entries|
    ensures ApplyAll(env, entries[..n + 1]) == Apply(ApplyAll(env, entries[..n]), entries[n])
  {
    assert entries[..n + 1][..n] == entries[..n];
  }

  /** The keys the entries define. */
  function DefinedKeys(entries: seq<Entry>): set<string>
  {
    set i | 0 <= i < |entries| && entries[i].Some? :: entries[i].value.0
  }

  /** `process.env.MONGODB_URI` is truthy: present and not empty. */
  predicate MongoUriSet(env: map<string, string>)
  {
    "MONGODB_URI" in env && env["MONGODB_URI"] != ""
  }

  /** The environment after `loadEnvLocal`, for the file contents given (None: no file). */
  function EnvAfterLoad(env: map<string, string>, file: Option<string>): (result: map<string, string>)
    ensures MongoUriSet(env) || file.None? ==> result == env
  {
    if MongoUriSet(env) || file.None? then env else ApplyAll(env, ParseLines(SplitLines(file.value)))
  }

  /** Nothing present before is removed or changed. */
  lemma {:induction false} ApplyAllKeepsExisting(env: map<string, string>, entries: seq<Entry>)
    ensures forall k :: k in env ==> k in ApplyAll(env, entries) && ApplyAll(env, entries)[k] == env[k]
    decreases |entries|
  {
    if |entries| > 0 {
      ApplyAllKeepsExisting(env, entries[..|entries| - 1]);
    }
  }

  /** The key an entry defines, as a set of at most one. */
  function EntryKey(entry: Entry): set<string>
  {
    if entry.Some? then {entry.value.0} else {}
  }

  lemma DefinedKeysSnoc(entries: seq<Entry>)
    requires |entries| > 0
    ensures DefinedKeys(entries) == DefinedKeys(entries[..|entries| - 1]) + EntryKey(entries[|entries| - 1])
  {
    var init := entries[..|entries| - 1];
    forall k | k in DefinedKeys(entries) ensures k in DefinedKeys(init) + EntryKey(entries[|entries| - 1]) {
      var i :| 0 <= i < |entries| && entries[i].Some? && entries[i].value.0 == k;
      if i < |entries| - 1 {
        assert entries[i] == init[i];
      }
    }
    forall k | k in DefinedKeys(init) ensures k in DefinedKeys(entries) {
      var i :| 0 <= i < |init| && init[i].Some? && init[i].value.0 == k;
      assert entries[i] == init[i];
    }
  }

  /** The keys afterwards are exactly the keys before plus the keys the entries define. */
  lemma {:induction false} ApplyAllKeys(env: map<string, string>, entries: seq<Entry>)
    ensures ApplyAll(env, entries).Keys == env.Keys + DefinedKeys(entries)
    decreases |entries|
  {
    if |entries| > 0 {
      ApplyAllKeys(env, entries[..|entries| - 1]);
      DefinedKeysSnoc(entries);
    }
  }

  /**
   * A key not present before gets the value of its first defining entry:
   * later entries with the same key change nothing.
   */
  lemma {:induction false} FirstOccurrenceWins(env: map<string, string>, entries: seq<Entry>, j: nat, key: string, value: string)
    requires key !in env
    requires j < |entries| && entries[j] == Some((key, value))
    requires forall i :: 0 <= i < j ==> entries[i].None? || entries[i].value.0 != key
    ensures key in ApplyAll(env, entries) && ApplyAll(env, entries)[key] == value
    decreases |entries|
  {
    var init := entries[..|entries| - 1];
    if j == |entries| - 1 {
      assert key !in DefinedKeys(init);
      ApplyAllKeys(env, init);
    } else {
      FirstOccurrenceWins(env, init, j, key, value);
    }
  }

  /** `process.env`: the dictionary `loadEnvLocal` writes into. */
  class ProcessEnv {
    var vars: map<string, string>

    constructor (initial: map<string, string>)
      ensures vars == initial
    {
      vars := initial;
    }

    /** `loadEnvLocal`, with the contents of `.env.local` as `file`. */
    method LoadEnvLocal(file: Option<string>)
      modifies this
      ensures vars == EnvAfterLoad(old(vars), file)
    {
      if MongoUriSet(vars) {
        return;
      }
      if file.None? {
        return;
      }
      var lines := SplitLines(file.value);
      ghost var entries := ParseLines(lines);
      for n := 0 to |lines|
        invariant vars == ApplyAll(old(vars), entries[..n])
      {
        ApplyAllSnoc(old(vars), entries, n);
        var parsed := ParseLine(lines[n]);
        if parsed.None? {
          continue;
        }
        var (key, value) := parsed.value;
        if key !in vars {
          vars := vars[key := value];
        }
      }
      assert entries[..|lines|] == entries;
    }
  }
}
