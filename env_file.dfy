/** `src/env_file.rs`: reading `KEY=VALUE` environment files into a sorted map
    and merging several of them. Opening and reading a file are cut off: a file
    is given as the outcome of opening it and, line by line, of reading it. */
module EnvFile {
  import opened Wrappers
  import opened Text
  import Assoc

  /** An `io::Error`, known only by its message. */
  datatype IoError = IoError(message: string)

  /** What `File::open` and `BufReader::lines` deliver for one file: either the
      open error, or the sequence of line results, each a line or an error. */
  type FileRead = Result<seq<Result<string, IoError>>, IoError>

  /** The characters stripped from both ends of a value. */
  predicate IsQuote(c: char) {
    c == '\'' || c == '"'
  }

  /** The shape of every key the parser yields. */
  predicate IsParsedKey(k: string) {
    && k != []
    && '=' !in k
    && k[0] != '#'
    && !IsWhitespace(k[0])
    && !IsWhitespace(k[|k| - 1])
  }

  /** The shape of every value the parser yields: no quote at either end. */
  predicate IsParsedValue(v: string) {
    v == [] || (!IsQuote(v[0]) && !IsQuote(v[|v| - 1]))
  }

  /** In the trimmed line `t`, the key of length `n` is followed by whitespace
      and then by the first `=`, at `i`. */
  ghost predicate EqualsAfterKey(t: string, n: nat, i: nat) {
    && n <= i < |t|
    && t[i] == '='
    && '=' !in t[..i]
    && forall j :: n <= j < i ==> IsWhitespace(t[j])
  }

  /** The key cut from a trimmed line before its first `=`. */
  lemma KeyOfTrimmedLine(t: string, i: nat)
    requires t != [] && t[0] != '#' && !IsWhitespace(t[0])
    requires IndexOf(t, '=') == Some(i)
    requires Trim(t[..i]) != []
    ensures var k := Trim(t[..i]); IsParsedKey(k) && |k| <= i && t[..|k|] == k
    ensures EqualsAfterKey(t, |Trim(t[..i])|, i)
  {
    var head := t[..i];
    assert TrimStart(head, IsWhitespace) == head by {
      assert !IsWhitespace(head[0]);
    }
    var k := TrimEnd(head, IsWhitespace);
    TrimEndSpec(head, IsWhitespace);
    assert Trim(head) == k;
    assert k == head[..|k|] == t[..|k|];
    assert '=' !in k by {
      assert '=' !in head;
      assert forall j :: 0 <= j < |k| ==> k[j] == head[j];
    }
    assert forall j :: |k| <= j < i ==> IsWhitespace(t[j]) by {
      forall j | |k| <= j < i ensures IsWhitespace(t[j]) {
        assert head[j] == t[j];
      }
    }
  }

  /** The entry one line contributes, if any (the body of the loop in
      `parse_env_file`). */
  function LineEntry(line: string): Option<(string, string)> {
    var t := Trim(line);
    if t == [] || t[0] == '#' then None
    else match IndexOf(t, '=')
      case None => None
      case Some(i) =>
        var key := Trim(t[..i]);
        var value := TrimMatches(Trim(t[i + 1..]), IsQuote);
        if key == [] then None
        else Some((key, value))
  }

  /** Blank lines, comments and lines without `=` give no entry; an entry has a
      key of the parsed shape, which is where the trimmed line starts and is
      followed only by whitespace up to the first `=`, and an unquoted value. */
  lemma LineEntrySpec(line: string)
    ensures Trim(line) == [] || Trim(line)[0] == '#' ==> LineEntry(line) == None
    ensures '=' !in Trim(line) ==> LineEntry(line) == None
    ensures LineEntry(line).Some? ==>
      var t := Trim(line);
      var (k, v) := LineEntry(line).value;
      && IsParsedKey(k) && IsParsedValue(v)
      && |k| < |t| && t[..|k|] == k
      && exists i :: EqualsAfterKey(t, |k|, i)
  {
    var t := Trim(line);
    if t != [] && t[0] != '#' && IndexOf(t, '=').Some? {
      var i := IndexOf(t, '=').value;
      var k := Trim(t[..i]);
      var v := TrimMatches(Trim(t[i + 1..]), IsQuote);
      if k != [] {
        assert LineEntry(line) == Some((k, v));
        TrimMatchesEnds(line, IsWhitespace);
        TrimMatchesEnds(Trim(t[i + 1..]), IsQuote);
        KeyOfTrimmedLine(t, i);
        assert EqualsAfterKey(t, |k|, i);
      }
    }
  }

  /** A value written between double quotes comes back unchanged. */
  lemma UnquoteQuoted(v: string)
    requires IsParsedValue(v)
    ensures TrimMatches(['"'] + v + ['"'], IsQuote) == v
  {
    var q := ['"'] + v + ['"'];
    assert IsQuote('"');
    TrimStartCons('"', v + ['"'], IsQuote);
    assert q == ['"'] + (v + ['"']);
    if v == [] {
      assert v + ['"'] == ['"'] + [];
      TrimStartCons('"', [], IsQuote);
    } else {
      TrimMatchesNoop(v, IsQuote);
      assert TrimStart(v + ['"'], IsQuote) == v + ['"'];
      TrimEndSnoc(v, '"', IsQuote);
    }
  }

  /** The pieces `LineEntry` cuts from a quoted `k="v"` line. */
  lemma QuotedLineParts(k: string, v: string)
    requires IsParsedKey(k) && IsParsedValue(v)
    ensures var line := k + ['='] + ['"'] + v + ['"'];
      && Trim(line) == line
      && IndexOf(line, '=') == Some(|k|)
      && Trim(line[..|k|]) == k
      && TrimMatches(Trim(line[|k| + 1..]), IsQuote) == v
  {
    var q := ['"'] + v + ['"'];
    var line := k + ['='] + q;
    assert line == k + ['='] + ['"'] + v + ['"'];
    assert Trim(line) == line by {
      TrimNoop(line);
    }
    assert IndexOf(line, '=') == Some(|k|) by {
      assert line[..|k|] == k;
      IndexOfAt(line, '=', |k|);
    }
    assert line[..|k|] == k && line[|k| + 1..] == q;
    TrimNoop(k);
    TrimNoop(q);
    UnquoteQuoted(v);
  }

  /** Writing `k="v"` and parsing the line gives back `(k, v)`: quotes protect
      whitespace at the ends of the value, and the value may contain `=`. */
  lemma QuotedLineRoundTrip(k: string, v: string)
    requires IsParsedKey(k) && IsParsedValue(v)
    ensures LineEntry(k + ['='] + ['"'] + v + ['"']) == Some((k, v))
  {
    QuotedLineParts(k, v);
  }

  /** A value without whitespace or quotes at its ends may be written bare. */
  predicate IsBareValue(v: string) {
    v == [] || (&& !IsWhitespace(v[0]) && !IsQuote(v[0])
                && !IsWhitespace(v[|v| - 1]) && !IsQuote(v[|v| - 1]))
  }

  /** The pieces `LineEntry` cuts from a bare `k=v` line. */
  lemma BareLineParts(k: string, v: string)
    requires IsParsedKey(k) && IsBareValue(v)
    ensures var line := k + ['='] + v;
      && Trim(line) == line
      && IndexOf(line, '=') == Some(|k|)
      && Trim(line[..|k|]) == k
      && TrimMatches(Trim(line[|k| + 1..]), IsQuote) == v
  {
    var line := k + ['='] + v;
    assert line[0] == k[0];
    if v == [] {
      assert line[|line| - 1] == '=';
    } else {
      assert line[|line| - 1] == v[|v| - 1];
    }
    TrimNoop(line);
    assert line[..|k|] == k;
    IndexOfAt(line, '=', |k|);
    TrimNoop(k);
    assert line[|k| + 1..] == v;
    TrimNoop(v);
    TrimMatchesNoop(v, IsQuote);
  }

  /** Writing `k=v` and parsing the line gives back `(k, v)`. */
  lemma BareLineRoundTrip(k: string, v: string)
    requires IsParsedKey(k) && IsBareValue(v)
    ensures LineEntry(k + ['='] + v) == Some((k, v))
  {
    BareLineParts(k, v);
  }

  /** The value part of a line after `=`: whitespace, opening quotes, the
      value, closing quotes, whitespace. Trimming gives back the quoted
      value, and stripping its quotes gives back the value. */
  lemma ValuePart(w3: string, qa: string, v: string, qb: string, w4: string)
    requires All(w3, IsWhitespace) && All(w4, IsWhitespace)
    requires All(qa, IsQuote) && All(qb, IsQuote) && IsParsedValue(v)
    requires qa == [] ==> v == [] || !IsWhitespace(v[0])
    requires qb == [] ==> v == [] || !IsWhitespace(v[|v| - 1])
    ensures var m := qa + v + qb; m == [] || (!IsWhitespace(m[0]) && !IsWhitespace(m[|m| - 1]))
    ensures Trim(w3 + (qa + v + qb) + w4) == qa + v + qb
    ensures TrimMatches(qa + v + qb, IsQuote) == v
  {
    var m := qa + v + qb;
    if m != [] {
      if qa != [] {
        assert m[0] == qa[0];
      } else if v != [] {
        assert m[0] == v[0];
      } else {
        assert m[0] == qb[0];
      }
      if qb != [] {
        assert m[|m| - 1] == qb[|qb| - 1];
      } else if v != [] {
        assert m[|m| - 1] == v[|v| - 1];
      } else {
        assert m[|m| - 1] == qa[|qa| - 1];
      }
    }
    TrimMatchesPadded(w3, m, w4, IsWhitespace);
    TrimMatchesPadded(qa, v, qb, IsQuote);
  }

  /** The trimmed line `k + w2 + "=" + after`: its first `=` follows the key
      and the whitespace after it. */
  lemma KeyPart(k: string, w2: string, after: string)
    requires IsParsedKey(k) && All(w2, IsWhitespace)
    ensures var core := k + w2 + "=" + after;
      && core[0] == k[0]
      && IndexOf(core, '=') == Some(|k| + |w2|)
      && core[..|k| + |w2|] == k + w2
      && core[|k| + |w2| + 1..] == after
      && Trim(k + w2) == k
  {
    var core := k + w2 + "=" + after;
    var n := |k| + |w2|;
    assert core[..n] == k + w2;
    assert '=' !in k + w2 by {
      assert forall i :: 0 <= i < n ==> (k + w2)[i] == if i < |k| then k[i] else w2[i - |k|];
    }
    IndexOfAt(core, '=', n);
    assert core[n + 1..] == after;
    assert [] + k + w2 == k + w2;
    TrimMatchesPadded([], k, w2, IsWhitespace);
  }

  /** The entry of a trimmed line `k + w2 + "=" + after`: the key `k` and
      the unquoted, trimmed text after `=`. */
  lemma KeyedCore(k: string, w2: string, after: string)
    requires IsParsedKey(k) && All(w2, IsWhitespace)
    requires after == [] || !IsWhitespace(after[|after| - 1])
    ensures LineEntry(k + w2 + "=" + after) == Some((k, TrimMatches(Trim(after), IsQuote)))
  {
    var core := k + w2 + "=" + after;
    KeyPart(k, w2, after);
    assert core[|core| - 1] == if after == [] then '=' else after[|after| - 1];
    TrimNoop(core);
  }

  /** A line made of whitespace, a trimmed line `core` and whitespace has the
      entry of `core`. */
  lemma PaddedLine(w1: string, core: string, tail: string)
    requires All(w1, IsWhitespace) && All(tail, IsWhitespace)
    requires core != [] && !IsWhitespace(core[0]) && !IsWhitespace(core[|core| - 1])
    ensures LineEntry(w1 + core + tail) == LineEntry(core)
  {
    TrimMatchesPadded(w1, core, tail, IsWhitespace);
    TrimNoop(core);
  }

  /** The pieces of a written line regrouped around its trimmed part. */
  lemma LineRegroup(w1: string, k: string, w2: string, w3: string, m: string, w4: string)
    requires All(w3, IsWhitespace) && All(w4, IsWhitespace)
    ensures var after := if m == [] then [] else w3 + m;
      var tail := if m == [] then w3 + w4 else w4;
      && w1 + k + w2 + "=" + w3 + m + w4 == w1 + (k + w2 + "=" + after) + tail
      && All(tail, IsWhitespace)
  {
    assert forall i :: 0 <= i < |w3 + w4| ==> (w3 + w4)[i] == if i < |w3| then w3[i] else w4[i - |w3|];
  }

  /** Any way of writing an entry reads back as that entry: leading and
      trailing whitespace, whitespace around `=`, and any run of single or
      double quotes around the value. Without an opening (closing) quote the
      value must not start (end) with whitespace, since `trim` would take it. */
  lemma LineRoundTrip(w1: string, k: string, w2: string, w3: string,
                      qa: string, v: string, qb: string, w4: string)
    requires All(w1, IsWhitespace) && All(w2, IsWhitespace)
    requires All(w3, IsWhitespace) && All(w4, IsWhitespace)
    requires All(qa, IsQuote) && All(qb, IsQuote)
    requires IsParsedKey(k) && IsParsedValue(v)
    requires qa == [] ==> v == [] || !IsWhitespace(v[0])
    requires qb == [] ==> v == [] || !IsWhitespace(v[|v| - 1])
    ensures LineEntry(w1 + k + w2 + "=" + w3 + qa + v + qb + w4) == Some((k, v))
  {
    var line := w1 + k + w2 + "=" + w3 + qa + v + qb + w4;
    var m := qa + v + qb;
    ValuePart(w3, qa, v, qb, w4);
    var after := if m == [] then [] else w3 + m;
    var tail := if m == [] then w3 + w4 else w4;
    var core := k + w2 + "=" + after;
    assert line == w1 + k + w2 + "=" + w3 + m + w4;
    LineRegroup(w1, k, w2, w3, m, w4);
    assert core[0] == k[0];
    assert core[|core| - 1] == if m == [] then '=' else m[|m| - 1];
    PaddedLine(w1, core, tail);
    assert Trim(after) == m by {
      if m != [] {
        assert w3 + m + [] == after;
        TrimMatchesPadded(w3, m, [], IsWhitespace);
      }
    }
    KeyedCore(k, w2, after);
  }

  /** The map `parse_env_file` builds from the lines of one file: each line's
      entry inserted in turn. */
  function Entries(lines: seq<string>): map<string, string> {
    Assoc.FromPairs(Assoc.FilterMap(lines, LineEntry))
  }

  /** One more line: a line without an entry changes nothing; a line with an
      entry sets its key to its value and leaves every other key alone. */
  lemma EntriesSnoc(lines: seq<string>, line: string)
    ensures LineEntry(line).None? ==> Entries(lines + [line]) == Entries(lines)
    ensures LineEntry(line).Some? ==>
      Entries(lines + [line]) == Entries(lines)[LineEntry(line).value.0 := LineEntry(line).value.1]
  {
    Assoc.FilterMapSnoc(lines, line, LineEntry);
  }

  /** The keys of a file are exactly the keys its lines yield. */
  lemma EntriesKeys(lines: seq<string>, k: string)
    ensures k in Entries(lines) <==> exists i :: Assoc.Yields(lines, LineEntry, i, k)
  {
    Assoc.FilterMapKeys(lines, LineEntry, k);
  }

  /** The value of a key is the one given by the last line that yields it. */
  lemma EntriesLastWins(lines: seq<string>, i: nat, k: string, v: string)
    requires i < |lines| && LineEntry(lines[i]) == Some((k, v))
    requires forall j :: i < j < |lines| ==> !Assoc.Yields(lines, LineEntry, j, k)
    ensures k in Entries(lines) && Entries(lines)[k] == v
  {
    Assoc.FilterMapLastWins(lines, LineEntry, i, k, v);
  }

  /** The lines of a file when every read succeeds, or the first read error. */
  function ReadAll(results: seq<Result<string, IoError>>): Result<seq<string>, IoError> {
    if results == [] then Success([])
    else match ReadAll(results[..|results| - 1])
      case Failure(e) => Failure(e)
      case Success(lines) =>
        match results[|results| - 1]
        case Failure(e) => Failure(e)
        case Success(line) => Success(lines + [line])
  }

  /** Reading fails exactly when some line read fails, with the error of the
      first failing read; otherwise it delivers every line in order. */
  lemma {:induction false} ReadAllSpec(results: seq<Result<string, IoError>>)
    ensures ReadAll(results).Success? ==>
      |ReadAll(results).value| == |results|
      && forall i :: 0 <= i < |results| ==> results[i] == Success(ReadAll(results).value[i])
    ensures ReadAll(results).Failure? ==>
      exists i :: 0 <= i < |results| && results[i] == Failure(ReadAll(results).error)
        && forall j :: 0 <= j < i ==> results[j].Success?
  {
    if results != [] {
      var init := results[..|results| - 1];
      ReadAllSpec(init);
      assert forall i :: 0 <= i < |init| ==> init[i] == results[i];
      if ReadAll(init).Failure? {
        var i :| 0 <= i < |init| && init[i] == Failure(ReadAll(init).error)
          && forall j :: 0 <= j < i ==> init[j].Success?;
        assert results[i] == Failure(ReadAll(results).error);
      } else if ReadAll(results).Failure? {
        assert results[|init|] == Failure(ReadAll(results).error);
      }
    }
  }

  /** Once a prefix of the results fails, so does the whole, with the same error. */
  lemma {:induction false} ReadAllPrefixFailure(results: seq<Result<string, IoError>>, n: nat)
    requires n <= |results| && ReadAll(results[..n]).Failure?
    ensures ReadAll(results) == ReadAll(results[..n])
    decreases |results|
  {
    if n < |results| {
      var init := results[..|results| - 1];
      assert init[..n] == results[..n];
      ReadAllPrefixFailure(init, n);
    } else {
      assert results[..n] == results;
    }
  }

  /** What `parse_env_file` returns for one file. */
  function ParsedFile(file: FileRead): Result<map<string, string>, IoError> {
    match file
    case Failure(e) => Failure(e)
    case Success(results) =>
      match ReadAll(results)
      case Failure(e) => Failure(e)
      case Success(lines) => Success(Entries(lines))
  }

  /** `parse_env_file`: the loop over the lines of one file. */
  method ParseEnvFile(file: FileRead) returns (r: Result<map<string, string>, IoError>)
    ensures r == ParsedFile(file)
  {
    if file.Failure? {
      return Failure(file.error);
    }
    var results := file.value;
    var envVars: map<string, string> := map[];
    ghost var lines: seq<string> := [];
    for n := 0 to |results|
      invariant ReadAll(results[..n]) == Success(lines)
      invariant envVars == Entries(lines)
    {
      assert results[..n + 1][..n] == results[..n];
      if results[n].Failure? {
        ReadAllPrefixFailure(results, n + 1);
        return Failure(results[n].error);
      }
      var line := results[n].value;
      assert ReadAll(results[..n + 1]) == Success(lines + [line]);
      EntriesSnoc(lines, line);
      lines := lines + [line];

      var trimmed := Trim(line);
      if trimmed == [] || trimmed[0] == '#' {
        continue;
      }
      var found := IndexOf(trimmed, '=');
      if found.Some? {
        var idx := found.value;
        var key := Trim(trimmed[..idx]);
        var value := Trim(trimmed[idx + 1..]);
        value := TrimMatches(value, IsQuote);
        if key != [] {
          envVars := envVars[key := value];
        }
      }
    }
    assert results[..|results|] == results;
    return Success(envVars);
  }

  /** What `parse_multiple_env_files` returns: the files' maps merged in order,
      or the error of the first file that fails. */
  function Merged(files: seq<FileRead>): Result<map<string, string>, IoError> {
    if files == [] then Success(map[])
    else match Merged(files[..|files| - 1])
      case Failure(e) => Failure(e)
      case Success(acc) =>
        match ParsedFile(files[|files| - 1])
        case Failure(e) => Failure(e)
        case Success(m) => Success(acc + m)
  }

  /** Once a prefix of the files fails, the merge fails with the same error. */
  lemma {:induction false} MergedPrefixFailure(files: seq<FileRead>, n: nat)
    requires n <= |files| && Merged(files[..n]).Failure?
    ensures Merged(files) == Merged(files[..n])
    decreases |files|
  {
    if n < |files| {
      var init := files[..|files| - 1];
      assert init[..n] == files[..n];
      MergedPrefixFailure(init, n);
    } else {
      assert files[..n] == files;
    }
  }

  /** `parse_multiple_env_files`: extends the combined map file by file. */
  method ParseMultipleEnvFiles(files: seq<FileRead>) returns (r: Result<map<string, string>, IoError>)
    ensures r == Merged(files)
  {
    var combined: map<string, string> := map[];
    for n := 0 to |files|
      invariant Merged(files[..n]) == Success(combined)
    {
      assert files[..n + 1][..n] == files[..n];
      var envVars := ParseEnvFile(files[n]);
      if envVars.Failure? {
        MergedPrefixFailure(files, n + 1);
        return Failure(envVars.error);
      }
      combined := combined + envVars.value;
    }
    assert files[..|files|] == files;
    return Success(combined);
  }

  /** The merge fails exactly when some file fails, and then with the error of
      the first file that fails; no partial map is returned. */
  lemma {:induction false} MergedFailure(files: seq<FileRead>)
    ensures Merged(files).Failure? <==> exists i :: 0 <= i < |files| && ParsedFile(files[i]).Failure?
    ensures Merged(files).Failure? ==>
      exists i :: 0 <= i < |files| && ParsedFile(files[i]) == Failure(Merged(files).error)
        && forall j :: 0 <= j < i ==> ParsedFile(files[j]).Success?
  {
    if files != [] {
      var init := files[..|files| - 1];
      MergedFailure(init);
      assert forall i :: 0 <= i < |init| ==> init[i] == files[i];
      if Merged(init).Failure? {
        var i :| 0 <= i < |init| && ParsedFile(init[i]) == Failure(Merged(init).error)
          && forall j :: 0 <= j < i ==> ParsedFile(init[j]).Success?;
        assert ParsedFile(files[i]) == Failure(Merged(files).error);
      } else if Merged(files).Failure? {
        assert ParsedFile(files[|init|]) == Failure(Merged(files).error);
      }
    }
  }

  /** File `i` is read successfully and defines key `k`. */
  ghost predicate FileDefines(files: seq<FileRead>, i: int, k: string) {
    0 <= i < |files| && ParsedFile(files[i]).Success? && k in ParsedFile(files[i]).value
  }

  /** One more file that parses: its map is laid over the merge so far. */
  lemma MergedSnoc(files: seq<FileRead>, file: FileRead)
    requires Merged(files).Success? && ParsedFile(file).Success?
    ensures Merged(files + [file]) == Success(Merged(files).value + ParsedFile(file).value)
  {
    assert (files + [file])[..|files|] == files;
  }

  /** When the merge succeeds, its keys are those of all the files. */
  lemma {:induction false} MergedKeys(files: seq<FileRead>, k: string)
    requires Merged(files).Success?
    ensures k in Merged(files).value <==> exists i :: FileDefines(files, i, k)
  {
    if files != [] {
      var init := files[..|files| - 1];
      var last := files[|files| - 1];
      assert files == init + [last];
      MergedSnoc(init, last);
      MergedKeys(init, k);
      assert forall i :: 0 <= i < |init| ==> (FileDefines(files, i, k) <==> FileDefines(init, i, k));
      if k in Merged(files).value && !FileDefines(files, |init|, k) {
        var i :| FileDefines(init, i, k);
        assert FileDefines(files, i, k);
      }
    }
  }

  /** The value of a key in the merge is its value in the last file defining it. */
  lemma {:induction false} MergedLastFileWins(files: seq<FileRead>, i: nat, k: string)
    requires Merged(files).Success?
    requires FileDefines(files, i, k)
    requires forall j :: i < j < |files| ==> !FileDefines(files, j, k)
    ensures k in Merged(files).value && Merged(files).value[k] == ParsedFile(files[i]).value[k]
  {
    var init := files[..|files| - 1];
    var last := files[|files| - 1];
    assert files == init + [last];
    MergedSnoc(init, last);
    if i < |init| {
      assert !FileDefines(files, |init|, k);
      assert FileDefines(init, i, k);
      forall j | i < j < |init|
        ensures !FileDefines(init, j, k)
      {
        assert !FileDefines(files, j, k);
      }
      MergedLastFileWins(init, i, k);
    }
  }
}
