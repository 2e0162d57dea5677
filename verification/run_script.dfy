/**
 * The sample filter of the run script: `buildProcessingDict` picks, from the
 * configuration's process map, the samples named on the command line as a
 * comma-separated list.  Python 2 `str.split(',')` and `str.strip()` are
 * modelled on `seq<char>`.
 */
module RunScript {

  // ---------------------------------------------------------------------------
  // Splitting at a separator

  /** The position of the first c in s. */
  function IndexOf(s: string, c: char): (r: nat)
    requires c in s
    ensures r < |s| && s[r] == c && c !in s[..r]
  {
    if s[0] == c then 0
    else
      assert s[1..][..IndexOf(s[1..], c)] == s[1..1 + IndexOf(s[1..], c)];
      1 + IndexOf(s[1..], c)
  }

  /** `s.split(sep)`: the pieces between separators, empty ones included, so
      that there is always at least one piece and none holds a separator. */
  function Split(s: string, sep: char): (r: seq<string>)
    ensures |r| >= 1 && forall i :: 0 <= i < |r| ==> sep !in r[i]
    decreases |s|
  {
    if sep !in s then [s]
    else
      var i := IndexOf(s, sep);
      [s[..i]] + Split(s[i + 1..], sep)
  }

  /** `sep.join(parts)`. */
  function Join(parts: seq<string>, sep: char): string
    requires |parts| >= 1
  {
    if |parts| == 1 then parts[0] else parts[0] + [sep] + Join(parts[1..], sep)
  }

  /** Joining the pieces gives the string back. */
  lemma {:induction false} JoinSplit(s: string, sep: char)
    ensures Join(Split(s, sep), sep) == s
    decreases |s|
  {
    if sep in s {
      var i := IndexOf(s, sep);
      var rest := s[i + 1..];
      var parts := Split(s, sep);
      assert parts == [s[..i]] + Split(rest, sep);
      assert parts[0] == s[..i] && parts[1..] == Split(rest, sep);
      JoinSplit(rest, sep);
      assert Join(parts, sep) == s[..i] + [sep] + rest;
      assert s == s[..i] + [sep] + rest;
    }
  }

  /** Splitting a join of separator-free pieces gives the pieces back. */
  lemma {:induction false} SplitJoin(parts: seq<string>, sep: char)
    requires |parts| >= 1 && forall i :: 0 <= i < |parts| ==> sep !in parts[i]
    ensures Split(Join(parts, sep), sep) == parts
  {
    if |parts| > 1 {
      var s := Join(parts, sep);
      var head := parts[0];
      assert s == head + [sep] + Join(parts[1..], sep);
      assert s[|head|] == sep && s[..|head|] == head;
      forall i | |head| < i <= |s| ensures sep in s[..i] {
        assert s[..i][|head|] == sep;
      }
      assert IndexOf(s, sep) == |head|;
      assert s[|head| + 1..] == Join(parts[1..], sep);
      SplitJoin(parts[1..], sep);
    }
  }

  // ---------------------------------------------------------------------------
  // Stripping whitespace

  /** The characters Python 2 `str.strip()` removes: space, tab, line feed,
      vertical tab, form feed and carriage return. */
  predicate IsSpace(c: char)
  {
    c == ' ' || c == '\t' || c == '\n' || c == '\U{0B}' || c == '\U{0C}' || c == '\r'
  }

  /** The number of whitespace characters s starts with. */
  function LeadingSpace(s: string): (i: nat)
    ensures i <= |s| && (forall k :: 0 <= k < i ==> IsSpace(s[k])) && (i == |s| || !IsSpace(s[i]))
  {
    if |s| == 0 || !IsSpace(s[0]) then 0 else 1 + LeadingSpace(s[1..])
  }

  /** Where the whitespace s ends with begins. */
  function TrailingSpace(s: string): (j: nat)
    ensures j <= |s| && (forall k :: j <= k < |s| ==> IsSpace(s[k])) && (j == 0 || !IsSpace(s[j - 1]))
  {
    if |s| == 0 || !IsSpace(s[|s| - 1]) then |s| else TrailingSpace(s[..|s| - 1])
  }

  /** `s.strip()`: s without its leading and trailing whitespace; what is left
      neither starts nor ends with whitespace. */
  function Strip(s: string): (r: string)
    ensures exists i, j :: (0 <= i <= j <= |s| && r == s[i..j] &&
      (forall k :: 0 <= k < i ==> IsSpace(s[k])) && (forall k :: j <= k < |s| ==> IsSpace(s[k])))
    ensures r == [] || (!IsSpace(r[0]) && !IsSpace(r[|r| - 1]))
  {
    var i := LeadingSpace(s);
    var t := s[i..];
    var j := TrailingSpace(t);
    assert t[..j] == s[i..i + j];
    t[..j]
  }

  /** Stripping twice strips nothing more. */
  lemma StripIdempotent(s: string)
    ensures Strip(Strip(s)) == Strip(s)
  {
    var r := Strip(s);
    if r != [] {
      assert LeadingSpace(r) == 0;
      assert r[0..] == r;
      assert TrailingSpace(r) == |r|;
    }
  }

  // ---------------------------------------------------------------------------
  // buildProcessingDict

  /** The sample names a non-empty samples string asks for, in order. */
  function Requested(samples: string): seq<string>
  {
    var parts := Split(samples, ',');
    seq(|parts|, i requires 0 <= i < |parts| => Strip(parts[i]))
  }

  /** The requested names that are not processes, in order, once per
      mention: the samples reported as not recognized. */
  function Unknown<V>(processes: map<string, V>, names: seq<string>): (r: seq<string>)
    ensures |r| <= |names|
    ensures forall x :: x in r <==> x in names && x !in processes
  {
    if names == [] then []
    else
      var last := names[|names| - 1];
      assert forall x :: x in names <==> x in names[..|names| - 1] || x == last;
      Unknown(processes, names[..|names| - 1]) + if last in processes then [] else [last]
  }

  /** `buildProcessingDict`: with no samples named, the configured processes
      themselves; otherwise the processes whose names are requested, with
      their configured values, one entry however often a name is repeated.
      `skipped` holds the names reported as not recognized, in order. */
  method BuildProcessingDict<V>(processes: map<string, V>, samples: string)
    returns (dict: map<string, V>, skipped: seq<string>)
    ensures samples == "" ==> dict == processes && skipped == []
    ensures samples != "" ==> forall k :: k in dict <==> k in Requested(samples) && k in processes
    ensures forall k :: k in dict ==> k in processes && dict[k] == processes[k]
    ensures samples != "" ==> |dict| <= |Requested(samples)| && skipped == Unknown(processes, Requested(samples))
  {
    if samples == "" {
      return processes, [];
    }
    dict, skipped := map[], [];
    var names := Requested(samples);
    for n := 0 to |names|
      invariant forall k :: k in dict <==> k in names[..n] && k in processes
      invariant forall k :: k in dict ==> k in processes && dict[k] == processes[k]
      invariant |dict| <= n && skipped == Unknown(processes, names[..n])
    {
      var sample := names[n];
      PrefixStep(names, n);
      if sample in processes {
        dict := dict[sample := processes[sample]];
      } else {
        skipped := skipped + [sample];
      }
    }
    assert names[..|names|] == names;
  }

  /** The prefix of length n + 1 is the prefix of length n and element n. */
  lemma PrefixStep<T>(s: seq<T>, n: nat)
    requires n < |s|
    ensures s[..n + 1] == s[..n] + [s[n]]
  {
  }
}
