/**
 * The `.env` reader of the token helper script: the file's text is split
 * into lines on `\n`, and each line of the form `KEY=value` adds or replaces
 * one entry of a dictionary, in file order.
 */
module EnvConfig {
  import opened Wrappers
  import opened Text
  import Dict

  /** What one line writes: when the text before its first `=` is non-empty
      and so is the text between that `=` and the next one (or the end of the
      line), those two texts, trimmed, as key and value; otherwise nothing. */
  function EnvEntry(line: string): (r: Option<(string, string)>)
    ensures '=' !in line ==> r.None?
    ensures r.Some? ==> '=' !in r.value.0 && '=' !in r.value.1
  {
    var i := IndexOfChar(line, '=');
    var rest := if i < |line| then line[i + 1..] else "";
    var j := IndexOfChar(rest, '=');
    if 0 < i < |line| && j > 0 then
      BeforeFirst(line, '=');
      TrimOmits(line[..i], '=');
      BeforeFirst(rest, '=');
      TrimOmits(rest[..j], '=');
      Some((Trim(line[..i]), Trim(rest[..j])))
    else None
  }

  /** The reader's own computation agrees with `EnvEntry`: the line is split
      at every `=`, and when the first two pieces exist and are non-empty,
      they are trimmed into the key and the value; later pieces are ignored. */
  lemma EnvEntryMatchesSplit(line: string)
    ensures var fields := Split(line, '=');
      EnvEntry(line)
        == if fields[0] != "" && |fields| >= 2 && fields[1] != "" then Some((Trim(fields[0]), Trim(fields[1]))) else None
  {
    SecondField(line, '=');
  }

  /** The dictionary the `reduce` builds from the file's lines. */
  function EnvConfigOfLines(lines: seq<string>): map<string, string>
  {
    Dict.ApplyEach(EnvEntry, lines)
  }

  /** Every entry of the configuration is what some line of the text gives,
      so no key and no value holds an `=`. */
  function EnvConfigOf(text: string): (r: map<string, string>)
    ensures forall k :: k in r ==> '=' !in k && '=' !in r[k]
  {
    Dict.ApplyEachFrom(EnvEntry, Split(text, '\n'));
    EnvConfigOfLines(Split(text, '\n'))
  }

  /** The `reduce` over the lines, writing into one accumulator. */
  method ParseEnv(text: string) returns (config: map<string, string>)
    ensures config == EnvConfigOf(text)
  {
    var lines := Split(text, '\n');
    config := map[];
    var n := 0;
    while n < |lines|
      invariant 0 <= n <= |lines|
      invariant config == EnvConfigOfLines(lines[..n])
    {
      config := AddLine(config, lines[n]);
      Dict.ApplyEachStep(EnvEntry, lines, n);
      n := n + 1;
    }
    assert lines[..n] == lines;
  }

  /** The `reduce` callback: one line's write into the accumulator. */
  method AddLine(acc: map<string, string>, line: string) returns (next: map<string, string>)
    ensures next == Dict.Put(acc, EnvEntry(line))
  {
    var fields := Split(line, '=');
    var key := fields[0];
    next := acc;
    EnvEntryMatchesSplit(line);
    if key != "" && |fields| >= 2 {
      var value := fields[1];
      if value != "" {
        next := acc[Trim(key) := Trim(value)];
      }
    }
  }

  /** A key is configured exactly when some line writes it. */
  lemma EnvDomain(lines: seq<string>, key: string)
    ensures key in EnvConfigOfLines(lines) <==> exists i :: 0 <= i < |lines| && Dict.Writes(EnvEntry(lines[i]), key)
  {
    Dict.ApplyEachDomain(EnvEntry, lines, key);
  }

  /** A later line with the same trimmed key overwrites an earlier one. */
  lemma EnvLastLineWins(lines: seq<string>, i: nat, key: string)
    requires i < |lines| && Dict.Writes(EnvEntry(lines[i]), key)
    requires forall j :: i < j < |lines| ==> !Dict.Writes(EnvEntry(lines[j]), key)
    ensures key in EnvConfigOfLines(lines) && EnvConfigOfLines(lines)[key] == EnvEntry(lines[i]).value.1
  {
    Dict.ApplyEachLastWins(EnvEntry, lines, i, key);
  }

  /** A line that starts with a key free of `=`: it writes exactly when the
      text after the first `=` has a non-empty start before any further `=`. */
  lemma EnvEntryAfterKey(key: string, rest: string)
    requires key != "" && '=' !in key
    ensures var j := IndexOfChar(rest, '=');
      EnvEntry(key + "=" + rest) == if j > 0 then Some((Trim(key), Trim(rest[..j]))) else None
  {
    var line := key + "=" + rest;
    FirstOccurrence(key, '=', rest);
    assert IndexOfChar(line, '=') == |key|;
    assert line[..|key|] == key && line[|key| + 1..] == rest;
  }

  /** A value that itself contains `=` is cut at it. */
  lemma ValueCutAtEquals(key: string, value: string, more: string)
    requires key != "" && '=' !in key && value != "" && '=' !in value
    ensures EnvEntry(key + "=" + value + "=" + more) == Some((Trim(key), Trim(value)))
  {
    var rest := value + "=" + more;
    assert key + "=" + value + "=" + more == key + "=" + rest;
    EnvEntryAfterKey(key, rest);
    FirstOccurrence(value, '=', more);
    assert rest[..|value|] == value;
  }

  /** `KEY= ` passes the test before trimming and is stored as `""`. */
  lemma BlankValueStoredEmpty(key: string)
    requires key != "" && '=' !in key
    ensures EnvEntry(key + "= ") == Some((Trim(key), ""))
  {
    var rest := " ";
    assert key + "= " == key + "=" + rest;
    assert IndexOfChar(rest, '=') == 1;
    assert Trim(rest[..1]) == "" by {
      assert rest[..1] == rest + "" + "";
      TrimPadded(rest, "", "");
    }
    EnvEntryAfterKey(key, rest);
  }

  /** Lines ending in `\r` (a file with Windows line ends) lose it to `trim`. */
  lemma CarriageReturnTrimmed(key: string, value: string)
    requires key != "" && '=' !in key && '=' !in value
    requires value != [] && !IsWhitespace(value[0]) && !IsWhitespace(value[|value| - 1])
    ensures EnvEntry(key + "=" + value + "\r") == Some((Trim(key), value))
  {
    var rest := value + "\r";
    assert key + "=" + value + "\r" == key + "=" + rest;
    assert IndexOfChar(rest, '=') == |rest| by {
      assert forall k :: 0 <= k < |rest| ==> rest[k] != '=';
    }
    assert Trim(rest[..|rest|]) == value by {
      assert rest[..|rest|] == [] + value + "\r";
      TrimPadded([], value, "\r");
    }
    EnvEntryAfterKey(key, rest);
  }

  /** Skipped lines: no `=`, an empty key, an empty value. */
  lemma SkippedLines(key: string, value: string)
    requires '=' !in key
    ensures EnvEntry(key) == None
    ensures EnvEntry("=" + value) == None
    ensures EnvEntry(key + "=") == None
  {
    assert IndexOfChar("=" + value, '=') == 0;
    if key != "" {
      assert key + "=" == key + "=" + "";
      EnvEntryAfterKey(key, "");
    } else {
      assert key + "=" == "=" + "";
    }
  }
}
