/**
  The configuration reader of the alarm: `load_env_file` turns the lines of a
  `key=value` file into a dictionary, and the three credential lookups after it
  fail when a required key is missing.
 */
module EnvConfig {
  import opened Wrappers

  // ---------------------------------------------------------------------------
  // Python string primitives used by the parser
  // ---------------------------------------------------------------------------

  /** The characters Python's `str.isspace()` accepts, i.e. those `str.strip()` removes. */
  predicate IsSpace(c: char)
  {
    || c == ' '
    || ('\t' <= c <= '\r')
    || ('\U{1C}' <= c <= '\U{1F}')
    || c == '\U{85}' || c == '\U{A0}' || c == '\U{1680}'
    || ('\U{2000}' <= c <= '\U{200A}')
    || c == '\U{2028}' || c == '\U{2029}' || c == '\U{202F}' || c == '\U{205F}' || c == '\U{3000}'
  }

  ghost predicate AllSpace(s: string)
  {
    forall i :: 0 <= i < |s| ==> IsSpace(s[i])
  }

  /**
    `s.strip()`: drop whitespace from the front, then from the back. What it
    returns is characterised by `StripIsTrimmedSlice`.
   */
  function Strip(s: string): (r: string)
    ensures |r| <= |s|
  {
    if s != [] && IsSpace(s[0]) then Strip(s[1..])
    else if s != [] && IsSpace(s[|s| - 1]) then Strip(s[..|s| - 1])
    else s
  }

  /** How many leading whitespace characters `s` has. */
  function Lead(s: string): (n: nat)
    ensures n <= |s|
  {
    if s != [] && IsSpace(s[0]) then 1 + Lead(s[1..]) else 0
  }

  /**
    The stripped line is the slice of the line after its leading whitespace,
    it starts and ends with a non-whitespace character, and everything after
    it is whitespace too.
   */
  lemma {:induction false} StripIsTrimmedSlice(s: string)
    ensures TrimmedSlice(s, Strip(s), Lead(s))
  {
    var n := |s|;
    if s != [] && IsSpace(s[0]) {
      StripIsTrimmedSlice(s[1..]);
      TrimmedAfterSpace(s, Strip(s[1..]), Lead(s[1..]));
    } else if s != [] && IsSpace(s[n - 1]) {
      assert s[..n - 1] != [] && s[..n - 1][0] == s[0];
      StripIsTrimmedSlice(s[..n - 1]);
      TrimmedBeforeSpace(s, Strip(s[..n - 1]));
    } else {
      assert s[..0] == [] && s[n..] == [] && s[0..n] == s;
    }
  }

  /**
    `r` is what stripping `s` leaves when `s` has `i` leading whitespace
    characters: the slice after them, starting and ending with a non-space
    character, followed by whitespace only.
   */
  ghost predicate TrimmedSlice(s: string, r: string, i: nat)
  {
    && i + |r| <= |s| && r == s[i..i + |r|]
    && AllSpace(s[..i]) && AllSpace(s[i + |r|..])
    && (r == [] || (!IsSpace(r[0]) && !IsSpace(r[|r| - 1])))
  }

  lemma TrimmedAfterSpace(s: string, r: string, j: nat)
    requires s != [] && IsSpace(s[0]) && TrimmedSlice(s[1..], r, j)
    ensures TrimmedSlice(s, r, j + 1)
  {
    var t := s[1..];
    assert s[j + 1..j + 1 + |r|] == t[j..j + |r|];
    assert s[..j + 1] == [s[0]] + t[..j];
    AllSpaceConcat([s[0]], t[..j]);
    assert s[j + 1 + |r|..] == t[j + |r|..];
  }

  lemma TrimmedBeforeSpace(s: string, r: string)
    requires |s| > 1 && IsSpace(s[|s| - 1]) && TrimmedSlice(s[..|s| - 1], r, 0)
    ensures TrimmedSlice(s, r, 0)
  {
    var init := s[..|s| - 1];
    assert s[..|r|] == init[..|r|];
    assert s[|r|..] == init[|r|..] + [s[|s| - 1]];
    AllSpaceConcat(init[|r|..], [s[|s| - 1]]);
  }

  lemma AllSpaceConcat(a: string, b: string)
    requires AllSpace(a) && AllSpace(b)
    ensures AllSpace(a + b)
  {
    forall k | 0 <= k < |a + b| ensures IsSpace((a + b)[k]) {
      if k >= |a| {
        assert (a + b)[k] == b[k - |a|];
      }
    }
  }

  /** A string strips to nothing exactly when it is all whitespace. */
  lemma {:induction false} StripEmptyIff(s: string)
    ensures Strip(s) == [] <==> AllSpace(s)
  {
    StripIsTrimmedSlice(s);
    var (r, i) := (Strip(s), Lead(s));
    assert TrimmedSlice(s, r, i);
    if r == [] {
      forall k | 0 <= k < |s| ensures IsSpace(s[k]) {
        if k < i {
          assert s[k] == s[..i][k];
        } else {
          assert s[k] == s[i..][k - i];
        }
      }
    } else {
      assert s[i] == r[0];
    }
  }

  /**
    `s.split(sep, 1)` unpacked into two names: the text before the first
    `sep` and everything after it, or None when `s` holds no `sep`.
   */
  function SplitAtFirst(s: string, sep: char): (r: Option<(string, string)>)
    ensures r.None? <==> sep !in s
    ensures r.Some? ==> s == r.value.0 + [sep] + r.value.1 && sep !in r.value.0
  {
    if s == [] then None
    else if s[0] == sep then Some(([], s[1..]))
    else
      match SplitAtFirst(s[1..], sep)
      case None => None
      case Some(kv) =>
        assert s == [s[0]] + s[1..];
        Some(([s[0]] + kv.0, kv.1))
  }

  // ---------------------------------------------------------------------------
  // load_env_file
  // ---------------------------------------------------------------------------

  /** The only way `load_env_file` fails on its lines: a kept line with no `=`. */
  datatype ParseError = NoSeparator(lineIndex: nat)

  /** What one line of the file contributes to the dictionary. */
  datatype LineKind = Skipped | Entry(key: string, value: string) | Malformed

  /**
    A line is read when it is not blank once stripped and, as written (not
    stripped), does not start with `#`.
   */
  predicate IsKept(line: string)
  {
    Strip(line) != [] && !(|line| > 0 && line[0] == '#')
  }

  /** A kept line is split at its first `=`; one without `=` cannot be unpacked. */
  function Classify(line: string): LineKind
  {
    if !IsKept(line) then Skipped
    else
      match SplitAtFirst(Strip(line), '=')
      case None => Malformed
      case Some(kv) => Entry(kv.0, kv.1)
  }

  /** The kind of every line, in file order. */
  function Kinds(lines: seq<string>): seq<LineKind>
  {
    seq(|lines|, i requires 0 <= i < |lines| => Classify(lines[i]))
  }

  /**
    The dictionary the loop has built after reading lines of the given kinds,
    or the error that stopped it.
   */
  function Build(ks: seq<LineKind>): Result<map<string, string>, ParseError>
  {
    if ks == [] then Success(map[])
    else
      var last := |ks| - 1;
      var prev := Build(ks[..last]);
      if prev.Failure? then prev
      else
        match ks[last]
        case Skipped => prev
        case Entry(k, v) => Success(prev.value[k := v])
        case Malformed => Failure(NoSeparator(last))
  }

  /** What `load_env_file` returns for a file with these lines. */
  function ParseLines(lines: seq<string>): Result<map<string, string>, ParseError>
  {
    Build(Kinds(lines))
  }

  /** Once a prefix has failed, reading further lines changes nothing. */
  lemma {:induction false} FailureIsFinal(ks: seq<LineKind>, n: nat)
    requires n <= |ks| && Build(ks[..n]).Failure?
    ensures Build(ks) == Build(ks[..n])
    decreases |ks| - n
  {
    if n < |ks| {
      assert ks[..n + 1][..n] == ks[..n];
      FailureIsFinal(ks, n + 1);
    } else {
      assert ks[..n] == ks;
    }
  }

  /** `load_env_file` over the lines of the file, filling the dictionary in place. */
  method LoadEnvFile(lines: seq<string>) returns (r: Result<map<string, string>, ParseError>)
    ensures r == ParseLines(lines)
  {
    ghost var ks := Kinds(lines);
    var env: map<string, string> := map[];
    for i := 0 to |lines|
      invariant Build(ks[..i]) == Success(env)
    {
      assert ks[..i + 1][..i] == ks[..i];
      var line := lines[i];
      if IsKept(line) {
        var parts := SplitAtFirst(Strip(line), '=');
        if parts.None? {
          r := Failure(NoSeparator(i));
          FailureIsFinal(ks, i + 1);
          return;
        }
        env := env[parts.value.0 := parts.value.1];
      }
    }
    assert ks[..|lines|] == ks;
    r := Success(env);
  }

  // ---------------------------------------------------------------------------
  // Properties of the parser
  // ---------------------------------------------------------------------------

  /** The line at index `i` sets key `k`. */
  predicate SetsKey(ks: seq<LineKind>, i: int, k: string)
  {
    0 <= i < |ks| && ks[i].Entry? && ks[i].key == k
  }

  /** The line at index `i` sets its key and no later line sets that key again. */
  predicate IsLastSetting(ks: seq<LineKind>, i: int)
  {
    0 <= i < |ks| && ks[i].Entry?
    && forall j :: i < j < |ks| ==> !SetsKey(ks, j, ks[i].key)
  }

  /**
    Parsing fails exactly when some kept line has no `=`, and the error names
    the first such line.
   */
  lemma {:induction false} FailsIff(ks: seq<LineKind>)
    ensures Build(ks).Failure? <==> exists i :: 0 <= i < |ks| && ks[i].Malformed?
    ensures Build(ks).Failure? ==>
      var n := Build(ks).error.lineIndex;
      n < |ks| && ks[n].Malformed? && forall j :: 0 <= j < n ==> !ks[j].Malformed?
  {
    if ks != [] {
      var last := |ks| - 1;
      var init := ks[..last];
      FailsIff(init);
      assert forall i :: 0 <= i < last ==> init[i] == ks[i];
    }
  }

  /** The keys of the dictionary are exactly the keys that some line sets. */
  lemma {:induction false} ParsedKeys(ks: seq<LineKind>)
    requires Build(ks).Success?
    ensures forall k :: k in Build(ks).value <==> exists i :: SetsKey(ks, i, k)
  {
    if ks != [] {
      var last := |ks| - 1;
      var init := ks[..last];
      ParsedKeys(init);
      forall k ensures k in Build(ks).value <==> exists i :: SetsKey(ks, i, k) {
        if SetsKey(ks, last, k) {
          assert k in Build(ks).value;
        }
        if exists i :: SetsKey(init, i, k) {
          var i :| SetsKey(init, i, k);
          assert SetsKey(ks, i, k);
        }
        if exists i :: SetsKey(ks, i, k) {
          var i :| SetsKey(ks, i, k);
          if i < last {
            assert SetsKey(init, i, k);
          }
        }
      }
    }
  }

  /**
    Duplicate keys: the dictionary holds, for every key, the value of the last
    line that sets it.
   */
  lemma {:induction false} LastValueWins(ks: seq<LineKind>)
    requires Build(ks).Success?
    ensures forall i :: IsLastSetting(ks, i) ==>
      ks[i].key in Build(ks).value && Build(ks).value[ks[i].key] == ks[i].value
  {
    if ks != [] {
      var last := |ks| - 1;
      var init := ks[..last];
      LastValueWins(init);
      forall i | IsLastSetting(ks, i)
        ensures ks[i].key in Build(ks).value && Build(ks).value[ks[i].key] == ks[i].value
      {
        if i < last {
          assert !SetsKey(ks, last, ks[i].key);
          assert IsLastSetting(init, i) by {
            forall j | i < j < last ensures !SetsKey(init, j, init[i].key) {
              assert !SetsKey(ks, j, ks[i].key);
            }
          }
        }
      }
    }
  }

  /** The kinds of a file with one more line. */
  lemma KindsAppend(lines: seq<string>, line: string)
    ensures Kinds(lines + [line]) == Kinds(lines) + [Classify(line)]
    ensures Kinds(lines + [line])[..|lines|] == Kinds(lines)
  {
    assert Kinds(lines + [line]) == Kinds(lines) + [Classify(line)];
  }

  /**
    Reading one more line that sets `k` to `v` updates that entry and leaves
    every other entry as it was.
   */
  lemma AppendEntry(lines: seq<string>, line: string, k: string, v: string)
    requires ParseLines(lines).Success? && Classify(line) == Entry(k, v)
    ensures ParseLines(lines + [line]) == Success(ParseLines(lines).value[k := v])
  {
    KindsAppend(lines, line);
  }

  /** Blank lines and lines starting with `#` leave the dictionary unchanged. */
  lemma AppendSkipped(lines: seq<string>, line: string)
    requires AllSpace(line) || (|line| > 0 && line[0] == '#')
    ensures ParseLines(lines + [line]) == ParseLines(lines)
  {
    StripEmptyIff(line);
    KindsAppend(lines, line);
  }

  /**
    The comment test looks at the line as written: a `#` after leading
    whitespace does not make a comment, and the key then starts with `#`.
   */
  lemma IndentedHashIsKept(indent: string, rest: string)
    requires indent != [] && AllSpace(indent)
    ensures IsKept(indent + "#" + rest)
    ensures Strip(indent + "#" + rest)[0] == '#'
  {
    var line := indent + "#" + rest;
    var n := |indent|;
    StripIsTrimmedSlice(line);
    assert line[n] == '#' && !IsSpace('#');
    assert AllSpace(line[..n]) by {
      assert line[..n] == indent;
    }
    var lead := Lead(line);
    assert lead <= n;
    assert Strip(line) != [];
    assert lead == n;
  }

  /**
    So an indented comment with no `=` in it is not skipped: `load_env_file`
    fails on it.
   */
  lemma IndentedCommentIsMalformed(indent: string, rest: string)
    requires indent != [] && AllSpace(indent) && '=' !in rest
    ensures Classify(indent + "#" + rest) == Malformed
  {
    var line := indent + "#" + rest;
    IndentedHashIsKept(indent, rest);
    StripIsTrimmedSlice(line);
    var (r, i) := (Strip(line), Lead(line));
    forall k | 0 <= k < |r| ensures r[k] != '=' {
      assert r[k] == line[i + k];
      if i + k > |indent| {
        assert line[i + k] == rest[i + k - |indent| - 1];
      }
    }
  }

  // ---------------------------------------------------------------------------
  // The required-key lookup after load_env_file
  // ---------------------------------------------------------------------------

  const SenderKey := "SENDER_EMAIL"
  const PasswordKey := "EMAIL_PASSWORD"
  const ReceiverKey := "RECEIVER_EMAIL"

  /** The keys read, in the order the lookups happen. */
  const RequiredKeys := [SenderKey, PasswordKey, ReceiverKey]

  datatype Credentials = Credentials(senderEmail: string, password: string, receiverEmail: string)

  /** Why startup stops before the camera is opened. */
  datatype ConfigError = ParseFailed(cause: ParseError) | MissingKey(key: string)

  /**
    The three subscript lookups: they succeed exactly when all three keys are
    present, and otherwise fail on the first missing one in lookup order.
   */
  function RequireCredentials(env: map<string, string>): (r: Result<Credentials, ConfigError>)
    ensures r.Success? <==> SenderKey in env && PasswordKey in env && ReceiverKey in env
    ensures r.Success? ==>
      && r.value.senderEmail == env[SenderKey]
      && r.value.password == env[PasswordKey]
      && r.value.receiverEmail == env[ReceiverKey]
    ensures r.Failure? ==> exists n :: (
      && 0 <= n < |RequiredKeys|
      && r.error == MissingKey(RequiredKeys[n]) && RequiredKeys[n] !in env
      && forall m :: 0 <= m < n ==> RequiredKeys[m] in env)
  {
    if SenderKey !in env then
      assert RequiredKeys[0] == SenderKey;
      Failure(MissingKey(SenderKey))
    else if PasswordKey !in env then
      assert RequiredKeys[1] == PasswordKey;
      Failure(MissingKey(PasswordKey))
    else if ReceiverKey !in env then
      assert RequiredKeys[2] == ReceiverKey;
      Failure(MissingKey(ReceiverKey))
    else
      Success(Credentials(env[SenderKey], env[PasswordKey], env[ReceiverKey]))
  }
}
