/** src/commands/prune.rs: dropping registries that do not answer.
    Whether a URL answers (an HTTP HEAD request with a success status) is
    the parameter `reachable`; the files are their texts, `None` when absent. */
module Prune {
  import opened Errors
  import opened Text
  import opened Utils
  import Sorting
  import Config

  /** The text left after dropping every registry line, each kept line
      followed by a newline, or the file deleted when no line is left.
      An absent file is left alone. */
  function Stripped(npmrc: Option<string>): (change: FileChange)
    ensures npmrc.None? ==> change == Unchanged
  {
    if npmrc.None? then Unchanged
    else
      var kept := NonRegistryLines(SplitLines(npmrc.value));
      if kept == [] then Delete else Write(Render(kept))
  }

  /** The filtering loop of prune.rs, for either `.npmrc`. */
  method StripRegistryLines(npmrc: Option<string>) returns (change: FileChange)
    ensures change == Stripped(npmrc)
  {
    if npmrc.None? {
      return Unchanged;
    }
    var lines := KeepNonRegistryLines(SplitLines(npmrc.value));
    if lines == [] {
      change := Delete;
    } else {
      change := Write(Render(lines));
    }
  }

  /** Every line sets the registry. */
  predicate AllRegistryLines(lines: seq<string>) {
    forall i :: 0 <= i < |lines| ==> IsRegistryLine(lines[i])
  }

  lemma {:induction false} NonRegistryLinesEmpty(lines: seq<string>)
    ensures NonRegistryLines(lines) == [] <==> AllRegistryLines(lines)
  {
    if lines != [] {
      NonRegistryLinesEmpty(lines[1..]);
      assert forall i :: 1 <= i < |lines| ==> lines[i] == lines[1..][i - 1];
    }
  }

  /** The file is deleted exactly when every one of its lines sets the registry. */
  lemma StrippedDeletes(npmrc: string)
    ensures Stripped(Some(npmrc)).Delete? <==> AllRegistryLines(SplitLines(npmrc))
  {
    NonRegistryLinesEmpty(SplitLines(npmrc));
  }

  /** A written file holds no registry line, whatever its lines end in. */
  lemma StrippedHasNoRegistryLine(npmrc: string)
    requires Stripped(Some(npmrc)).Write?
    ensures FirstRegistryUrl(SplitLines(Stripped(Some(npmrc)).content)) == None
  {
    var kept := NonRegistryLines(SplitLines(npmrc));
    NonRegistryLinesNoNewline(SplitLines(npmrc));
    SplitRenderStripsCr(kept);
    var read := StripCrs(kept);
    forall i | 0 <= i < |read| ensures !IsRegistryLine(read[i]) {
      RegistryLineIgnoresCr(kept[i]);
    }
    assert FirstRegistryIndex(read) == |read|;
  }

  /** A written file whose lines do not end in '\r' reads back as the lines
      that do not set the registry, in order. */
  lemma StrippedReadsBack(npmrc: string)
    requires forall i :: 0 <= i < |SplitLines(npmrc)| ==> !EndsWithCr(SplitLines(npmrc)[i])
    requires Stripped(Some(npmrc)).Write?
    ensures SplitLines(Stripped(Some(npmrc)).content) == NonRegistryLines(SplitLines(npmrc))
    ensures FirstRegistryUrl(SplitLines(Stripped(Some(npmrc)).content)) == None
  {
    var lines := SplitLines(npmrc);
    var kept := NonRegistryLines(lines);
    NonRegistryLinesFrom(lines);
    forall i | 0 <= i < |kept| ensures '\n' !in kept[i] && !EndsWithCr(kept[i]) {
      assert kept[i] in lines;
    }
    SplitRender(kept);
    StrippedHasNoRegistryLine(npmrc);
  }

  /** `prune --local`: with no registry line in the local `.npmrc`, a
      registry that answers, or a dry run, the file is left alone;
      otherwise its registry lines are dropped. */
  method ExecuteLocal(npmrc: Option<string>, reachable: string -> bool, dryRun: bool) returns (change: FileChange)
    ensures FirstRegistryUrl(LinesOf(npmrc)).None? ==> change == Unchanged
    ensures FirstRegistryUrl(LinesOf(npmrc)).Some? && reachable(FirstRegistryUrl(LinesOf(npmrc)).value) ==> change == Unchanged
    ensures dryRun ==> change == Unchanged
    ensures FirstRegistryUrl(LinesOf(npmrc)).Some? && !reachable(FirstRegistryUrl(LinesOf(npmrc)).value) && !dryRun ==>
      npmrc.Some? && change == Stripped(npmrc)
  {
    var url := ReadRegistryUrl(npmrc);
    if url.None? || reachable(url.value) || dryRun {
      return Unchanged;
    }
    change := StripRegistryLines(npmrc);
  }

  /** A custom registry `prune` finds unreachable: its URL, looked up as
      `test_registry` does (built-ins first), does not answer. */
  predicate IsUnreachable(registries: map<string, string>, custom: map<string, string>,
                          reachable: string -> bool, name: string)
    ensures name !in custom ==> !IsUnreachable(registries, custom, reachable, name)
    ensures name in custom && name in registries ==>
      (IsUnreachable(registries, custom, reachable, name) <==> !reachable(registries[name]))
    ensures name in custom && name !in registries ==>
      (IsUnreachable(registries, custom, reachable, name) <==> !reachable(custom[name]))
  {
    name in custom && !reachable(Config.LookupUrl(registries, custom, name))
  }

  ghost function Unreachable(registries: map<string, string>, custom: map<string, string>,
                             reachable: string -> bool): set<string>
  {
    set n | n in custom && IsUnreachable(registries, custom, reachable, n)
  }

  /** A subsequence of a sorted list of distinct strings, taken at
      increasing positions, is sorted and distinct too. */
  lemma SubsequenceSorted(names: seq<string>, picked: seq<string>, from: seq<nat>)
    requires Sorting.SortedBy(names, LexLe) && Sorting.Distinct(names)
    requires |from| == |picked|
    requires forall k :: 0 <= k < |from| ==> from[k] < |names| && picked[k] == names[from[k]]
    requires forall k, l :: 0 <= k < l < |from| ==> from[k] < from[l]
    ensures Sorting.SortedBy(picked, LexLe) && Sorting.Distinct(picked)
  {
  }

  /** The probing loop: the custom names in ascending order, keeping those
      that do not answer. The result lists exactly the unreachable custom
      registries, each once, in ascending order. */
  method Probe(registries: map<string, string>, custom: map<string, string>, reachable: string -> bool)
    returns (unreachable: seq<string>)
    ensures Sorting.SortedBy(unreachable, LexLe)
    ensures Sorting.Distinct(unreachable)
    ensures forall n :: n in unreachable <==> IsUnreachable(registries, custom, reachable, n)
  {
    var keys := Sorting.Collect(custom.Keys);
    var names := Sorting.SortStrings(keys);
    Sorting.DistinctOfSet(names, custom.Keys);
    unreachable := [];
    ghost var from: seq<nat> := [];
    for i := 0 to |names|
      invariant |from| == |unreachable|
      invariant forall k :: 0 <= k < |from| ==> from[k] < i && unreachable[k] == names[from[k]]
      invariant forall k, l :: 0 <= k < l < |from| ==> from[k] < from[l]
      invariant forall n :: n in unreachable <==> n in names[..i] && IsUnreachable(registries, custom, reachable, n)
    {
      assert names[..i + 1] == names[..i] + [names[i]];
      if IsUnreachable(registries, custom, reachable, names[i]) {
        unreachable := unreachable + [names[i]];
        from := from + [i];
      }
    }
    SubsequenceSorted(names, unreachable, from);
    forall n ensures n in names <==> n in custom {
      assert n in names <==> n in multiset(names);
    }
    assert names[..|names|] == names;
  }

  /** The removal loop: `remove_registry` for each unreachable name, none
      of which fails, since each is a distinct custom name. */
  method RemoveAll(config: Config.Config, names: seq<string>)
    modifies config
    requires Sorting.Distinct(names)
    requires forall n :: n in names ==> n in config.customRegistries
    ensures config.registries == old(config.registries) - set n | n in names
    ensures config.customRegistries == old(config.customRegistries) - set n | n in names
    ensures config.registryOrder == Config.Without(old(config.registryOrder), set n | n in names)
    ensures config.current == if old(config.current).Some? && old(config.current).value in names then None else old(config.current)
    ensures old(config.Valid()) ==> config.Valid()
  {
    ghost var removed: set<string> := {};
    Config.WithoutNothing(config.registryOrder);
    assert config.registries == config.registries - removed;
    assert config.customRegistries == config.customRegistries - removed;
    for i := 0 to |names|
      invariant forall n :: n in removed <==> n in names[..i]
      invariant config.registries == old(config.registries) - removed
      invariant config.customRegistries == old(config.customRegistries) - removed
      invariant config.registryOrder == Config.Without(old(config.registryOrder), removed)
      invariant config.current == if old(config.current).Some? && old(config.current).value in removed then None else old(config.current)
      invariant old(config.Valid()) ==> config.Valid()
    {
      assert names[i] !in removed by {
        assert forall k :: 0 <= k < i ==> names[k] != names[i];
      }
      assert names[i] in config.customRegistries;
      assert names[..i + 1] == names[..i] + [names[i]];
      var r := config.RemoveRegistry(names[i]);
      assert r.Ok?;
      Config.WithoutTwice(old(config.registryOrder), removed, {names[i]});
      removed := removed + {names[i]};
    }
    assert names[..|names|] == names;
    assert removed == set n | n in names;
  }

  /** `prune` without `--local`. It probes the custom registries; unless
      this is a dry run or every one answers, it removes the unreachable
      ones from the profile and, when that leaves nothing selected, drops
      the registry lines of the global `.npmrc`. */
  method ExecuteGlobal(config: Config.Config, npmrc: Option<string>, reachable: string -> bool, dryRun: bool)
    returns (unreachable: seq<string>, change: FileChange)
    modifies config
    ensures Sorting.SortedBy(unreachable, LexLe) && Sorting.Distinct(unreachable)
    ensures forall n :: n in unreachable <==> n in Unreachable(old(config.registries), old(config.customRegistries), reachable)
    ensures dryRun || unreachable == [] ==> unchanged(config) && change == Unchanged
    ensures !dryRun ==>
      var gone := Unreachable(old(config.registries), old(config.customRegistries), reachable);
      && config.registries == old(config.registries) - gone
      && config.customRegistries == old(config.customRegistries) - gone
      && config.registryOrder == Config.Without(old(config.registryOrder), gone)
      && config.current == (if old(config.current).Some? && old(config.current).value in gone then None else old(config.current))
    ensures !dryRun && unreachable != [] ==>
      change == (if config.current.None? then Stripped(npmrc) else Unchanged)
    ensures old(config.registries.Keys) !! old(config.customRegistries.Keys) ==> config.registries == old(config.registries)
    ensures old(config.Valid()) ==> config.Valid()
  {
    unreachable := Probe(config.registries, config.customRegistries, reachable);
    ghost var gone := Unreachable(config.registries, config.customRegistries, reachable);
    assert gone == set n | n in unreachable;
    if dryRun || unreachable == [] {
      if !dryRun {
        assert gone == {};
        assert config.registries - gone == config.registries;
        assert config.customRegistries - gone == config.customRegistries;
        Config.WithoutNothing(config.registryOrder);
      }
      return unreachable, Unchanged;
    }
    RemoveAll(config, unreachable);
    change := Unchanged;
    if config.current.None? {
      change := StripRegistryLines(npmrc);
    }
  }
}
