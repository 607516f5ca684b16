/** src/utils.rs: deriving a profile name for a registry URL met in the
    live `.npmrc`, and finding the `registry=` line of an `.npmrc`.
    An `.npmrc` is modelled by its text, `Option<string>` when the file may
    be absent; the path helpers (home and working directory) are not part
    of this model. The line filter that config.rs and prune.rs each write
    out is kept here once. */
module Utils {
  import opened Errors
  import opened Text

  const RegistryKey := "registry="

  /** A line that sets the registry: its trimmed form starts with
      `registry=`, so it is at least as long as that key. */
  predicate IsRegistryLine(line: string)
    ensures IsRegistryLine(line) ==> |RegistryKey| <= |line|
  {
    TrimShorter(line);
    StartsWith(Trim(line), RegistryKey)
  }

  /** The URL such a line sets: the trimmed line is `registry=` followed by it. */
  function LineUrl(line: string): (url: string)
    requires IsRegistryLine(line)
    ensures RegistryKey + url == Trim(line)
    ensures |url| < |line|
  {
    TrimShorter(line);
    Trim(line)[|RegistryKey|..]
  }

  /** Indentation before a line changes neither whether it sets the
      registry nor the URL it sets. */
  lemma IndentationIgnored(ws: string, line: string)
    requires forall i :: 0 <= i < |ws| ==> IsWhitespace(ws[i])
    ensures IsRegistryLine(ws + line) <==> IsRegistryLine(line)
    ensures IsRegistryLine(line) ==> LineUrl(ws + line) == LineUrl(line)
  {
    TrimStartSkipsWhitespace(ws, line);
  }

  /** The '\r' that `BufRead::lines` may drop on reading a line back is
      white space, so it changes neither whether the line sets the registry
      nor the URL it sets. */
  lemma RegistryLineIgnoresCr(line: string)
    ensures IsRegistryLine(StripCr(line)) <==> IsRegistryLine(line)
    ensures IsRegistryLine(line) ==> LineUrl(StripCr(line)) == LineUrl(line)
  {
    TrimStripCr(line);
  }

  /** The line `registry=<url>` sets the URL without its trailing white space. */
  lemma RegistryLineReadsTrimmed(url: string)
    ensures IsRegistryLine(RegistryKey + url)
    ensures LineUrl(RegistryKey + url) == TrimEnd(url)
  {
    var line := RegistryKey + url;
    assert line[0] == 'r';
    assert TrimStart(line) == line;
    TrimEndAfter(RegistryKey, url);
    assert (RegistryKey + TrimEnd(url))[..|RegistryKey|] == RegistryKey;
  }

  /** The index of the first registry line, or |lines| when there is none. */
  function FirstRegistryIndex(lines: seq<string>): (i: nat)
    ensures i <= |lines|
    ensures i < |lines| ==> IsRegistryLine(lines[i])
    ensures forall j :: 0 <= j < i ==> !IsRegistryLine(lines[j])
  {
    if lines == [] || IsRegistryLine(lines[0]) then 0 else 1 + FirstRegistryIndex(lines[1..])
  }

  /** The URL of the first registry line, if any line is one. */
  function FirstRegistryUrl(lines: seq<string>): Option<string> {
    var i := FirstRegistryIndex(lines);
    if i < |lines| then Some(LineUrl(lines[i])) else None
  }

  /** The lines of a file that may be absent (an absent file has none). */
  function LinesOf(npmrc: Option<string>): seq<string> {
    if npmrc.None? then [] else SplitLines(npmrc.value)
  }

  /** The scan of `get_local_registry_url` (and of `Config::load`, which
      repeats it for the global file): no file gives `None`; otherwise the
      first line whose trimmed form starts with `registry=` gives its URL. */
  method ReadRegistryUrl(npmrc: Option<string>) returns (url: Option<string>)
    ensures url == FirstRegistryUrl(LinesOf(npmrc))
  {
    if npmrc.None? {
      return None;
    }
    var lines := SplitLines(npmrc.value);
    var i := 0;
    while i < |lines|
      invariant 0 <= i <= |lines|
      invariant FirstRegistryUrl(lines) == FirstRegistryUrl(lines[i..])
    {
      if IsRegistryLine(lines[i]) {
        return Some(LineUrl(lines[i]));
      }
      assert lines[i..][1..] == lines[i + 1..];
      i := i + 1;
    }
    return None;
  }

  /** The lines that do not set the registry, in their original order. */
  function NonRegistryLines(lines: seq<string>): (kept: seq<string>)
    ensures forall i :: 0 <= i < |kept| ==> !IsRegistryLine(kept[i])
  {
    if lines == [] then []
    else if IsRegistryLine(lines[0]) then NonRegistryLines(lines[1..])
    else [lines[0]] + NonRegistryLines(lines[1..])
  }

  lemma {:induction false} NonRegistryLinesFrom(lines: seq<string>)
    ensures forall l :: l in NonRegistryLines(lines) ==> l in lines
  {
    if lines != [] {
      NonRegistryLinesFrom(lines[1..]);
    }
  }

  /** Filtering a concatenation filters each part: nothing but registry
      lines is dropped and the order of the kept lines is unchanged. */
  lemma {:induction false} NonRegistryLinesAppend(a: seq<string>, b: seq<string>)
    ensures NonRegistryLines(a + b) == NonRegistryLines(a) + NonRegistryLines(b)
  {
    if a == [] {
      assert a + b == b;
    } else {
      assert (a + b)[0] == a[0] && (a + b)[1..] == a[1..] + b;
      NonRegistryLinesAppend(a[1..], b);
    }
  }

  lemma NonRegistryLinesNoNewline(lines: seq<string>)
    requires forall i :: 0 <= i < |lines| ==> '\n' !in lines[i]
    ensures forall i :: 0 <= i < |NonRegistryLines(lines)| ==> '\n' !in NonRegistryLines(lines)[i]
  {
    var kept := NonRegistryLines(lines);
    NonRegistryLinesFrom(lines);
    forall i | 0 <= i < |kept| ensures '\n' !in kept[i] {
      assert kept[i] in lines;
    }
  }

  /** Lines that do not set the registry, then one that does, read back
      with their '\r' endings dropped: the URL found is the last line's. */
  lemma ReadBackAfterKept(kept: seq<string>, line: string)
    requires forall i :: 0 <= i < |kept| ==> !IsRegistryLine(kept[i])
    requires IsRegistryLine(line)
    ensures FirstRegistryUrl(StripCrs(kept + [line])) == Some(LineUrl(line))
  {
    var read := StripCrs(kept + [line]);
    forall i | 0 <= i < |kept| ensures !IsRegistryLine(read[i]) {
      assert read[i] == StripCr(kept[i]);
      RegistryLineIgnoresCr(kept[i]);
    }
    assert read[|kept|] == StripCr(line);
    RegistryLineIgnoresCr(line);
    assert FirstRegistryIndex(read) == |kept|;
  }

  /** The loop of `update_npmrc` and of `prune` that pushes every line whose
      trimmed form does not start with `registry=`. */
  method KeepNonRegistryLines(lines: seq<string>) returns (kept: seq<string>)
    ensures kept == NonRegistryLines(lines)
  {
    kept := [];
    for i := 0 to |lines|
      invariant kept == NonRegistryLines(lines[..i])
    {
      NonRegistryLinesAppend(lines[..i], [lines[i]]);
      assert lines[..i + 1] == lines[..i] + [lines[i]];
      if !IsRegistryLine(lines[i]) {
        kept := kept + [lines[i]];
      }
    }
    assert lines[..|lines|] == lines;
  }

  /** What a command does to a file. */
  datatype FileChange = Unchanged | Write(content: string) | Delete

  /** The text before the first '/', or all of it when there is none. */
  function UpToSlash(s: string): (r: string)
    ensures '/' !in r && StartsWith(s, r)
    ensures |r| < |s| ==> s[|r|] == '/'
  {
    if s == [] || s[0] == '/' then [] else [s[0]] + UpToSlash(s[1..])
  }

  function DashFor(c: char): char {
    if c == '.' || c == ':' then '-' else c
  }

  /** The host part of a URL as `derive_registry_name` takes it: leading
      `http://` then leading `https://` prefixes stripped, the text up to the
      first '/', every '.' and ':' turned into '-'. */
  function Host(url: string): (host: string)
    ensures '.' !in host && ':' !in host && '/' !in host
    ensures |host| <= |url|
  {
    var rest := UpToSlash(TrimStartMatches(TrimStartMatches(url, "http://"), "https://"));
    seq(|rest|, i requires 0 <= i < |rest| => DashFor(rest[i]))
  }

  /** The candidate name for a counter value: the host, a dash, then the counter in decimal. */
  function Suffixed(host: string, n: nat): (name: string)
    ensures StartsWith(name, host + "-") && |name| > |host| + 1
  {
    host + "-" + Decimal(n)
  }

  /** The number a name carries after `host-`, or -1 if it has no such form. */
  ghost function SuffixNumber(host: string, name: string): int {
    var k := |host| + 1;
    if |name| > k && name[..k] == host + "-" && AllDigits(name[k..]) then DecimalValue(name[k..]) else -1
  }

  lemma SuffixNumberOfSuffixed(host: string, n: nat)
    ensures SuffixNumber(host, Suffixed(host, n)) == n
  {
    var s := Suffixed(host, n);
    assert s[..|host| + 1] == host + "-";
    assert s[|host| + 1..] == Decimal(n);
    DecimalRoundTrip(n);
  }

  /** A name `derive_registry_name` may return for `url`: not yet a custom
      name; the host itself when that is free; otherwise `host-N` for the
      least N >= 1 that is free (N cannot exceed the number of custom names). */
  ghost predicate IsDerivedName(url: string, custom: map<string, string>, name: string) {
    var host := Host(url);
    && name !in custom
    && (host !in custom ==> name == host)
    && (host in custom ==>
          exists n: nat :: 1 <= n <= |custom| && name == Suffixed(host, n)
            && forall k :: 1 <= k < n ==> Suffixed(host, k) in custom)
  }

  lemma SubsetCardinality<T>(a: set<T>, b: set<T>)
    requires a <= b
    ensures |a| <= |b|
  {
    assert b == a + (b - a);
  }

  /** A step of the counter search passes over a name it has not met before. */
  lemma PassName(host: string, passed: set<string>, counter: nat)
    requires counter >= 1
    requires forall t :: t in passed ==> t == host || 1 <= SuffixNumber(host, t) < counter
    ensures Suffixed(host, counter) !in passed
    ensures |passed + {Suffixed(host, counter)}| == |passed| + 1
    ensures forall t :: t in passed + {Suffixed(host, counter)} ==>
      t == host || 1 <= SuffixNumber(host, t) < counter + 1
  {
    SuffixNumberOfSuffixed(host, counter);
    assert |Suffixed(host, counter)| > |host|;
  }

  /** `derive_registry_name`: the counter search stops because every name it
      passes over is a distinct key of the finite map. */
  method DeriveRegistryName(url: string, custom: map<string, string>) returns (name: string)
    ensures IsDerivedName(url, custom, name)
  {
    var host := Host(url);
    if host !in custom {
      return host;
    }
    var counter := 1;
    name := Suffixed(host, counter);
    ghost var passed := {host};
    while name in custom
      invariant counter >= 1 && name == Suffixed(host, counter)
      invariant passed <= custom.Keys && |passed| == counter && host in passed
      invariant forall t :: t in passed ==> t == host || 1 <= SuffixNumber(host, t) < counter
      invariant forall k :: 1 <= k < counter ==> Suffixed(host, k) in custom
      decreases custom.Keys - passed
    {
      PassName(host, passed, counter);
      assert forall k :: 1 <= k < counter + 1 ==> Suffixed(host, k) in custom by {
        forall k | 1 <= k < counter + 1 ensures Suffixed(host, k) in custom {
          if k == counter {
            assert Suffixed(host, k) == name;
          }
        }
      }
      passed := passed + {name};
      counter := counter + 1;
      name := Suffixed(host, counter);
    }
    SubsetCardinality(passed, custom.Keys);
    assert 1 <= counter <= |custom| && name == Suffixed(host, counter);
  }

  /** The derived name is determined by the URL and the custom names. */
  lemma DerivedNameUnique(url: string, custom: map<string, string>, a: string, b: string)
    requires IsDerivedName(url, custom, a) && IsDerivedName(url, custom, b)
    ensures a == b
  {
    var host := Host(url);
    if host in custom {
      var m: nat :| 1 <= m <= |custom| && a == Suffixed(host, m)
        && forall k :: 1 <= k < m ==> Suffixed(host, k) in custom;
      var n: nat :| 1 <= n <= |custom| && b == Suffixed(host, n)
        && forall k :: 1 <= k < n ==> Suffixed(host, k) in custom;
      assert !(m < n) && !(n < m);
    }
  }
}
