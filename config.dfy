/** src/config.rs: the profile of named registries (built-in and custom),
    their display order and the selected registry, with the operations
    that change it and the rewrite of the `registry=` line of an `.npmrc`.
    Saving the profile (JSON on disk) is not modelled: the state of the
    object after each method is what would be saved. */
module Config {
  import opened Errors
  import opened Text
  import opened Utils
  import Sorting

  /** The six built-in registries of `Config::new`, in declaration order. */
  const DefaultRegistries: seq<(string, string)> := [
    ("npm", "https://registry.npmjs.org/"),
    ("yarn", "https://registry.yarnpkg.com/"),
    ("taobao", "https://registry.npmmirror.com/"),
    ("tencent", "https://mirrors.cloud.tencent.com/npm/"),
    ("npmMirror", "https://skimdb.npmjs.com/registry/"),
    ("github", "https://npm.pkg.github.com/")
  ]

  /** The names of the built-ins, in declaration order. */
  const DefaultOrder: seq<string> := seq(|DefaultRegistries|, i requires 0 <= i < |DefaultRegistries| => DefaultRegistries[i].0)

  /** The same six entries as a map, and their names as a set, written out
      so that proofs need not unfold the insertions; `DefaultsInserted`
      proves both agree with `DefaultRegistries`. */
  const DefaultRegistryMap: map<string, string> := map[
    "npm" := "https://registry.npmjs.org/",
    "yarn" := "https://registry.yarnpkg.com/",
    "taobao" := "https://registry.npmmirror.com/",
    "tencent" := "https://mirrors.cloud.tencent.com/npm/",
    "npmMirror" := "https://skimdb.npmjs.com/registry/",
    "github" := "https://npm.pkg.github.com/"
  ]

  const DefaultNames: set<string> := {"npm", "yarn", "taobao", "tencent", "npmMirror", "github"}

  /** The map the first `n` insertions of `Config::new` build. */
  function InsertedDefaults(n: nat): map<string, string>
    requires n <= |DefaultRegistries|
  {
    if n == 0 then map[]
    else InsertedDefaults(n - 1)[DefaultRegistries[n - 1].0 := DefaultRegistries[n - 1].1]
  }

  lemma DefaultsInserted()
    ensures InsertedDefaults(|DefaultRegistries|) == DefaultRegistryMap
    ensures DefaultRegistryMap.Keys == DefaultNames
    ensures forall n :: n in DefaultOrder <==> n in DefaultNames
  {
    assert DefaultOrder == ["npm", "yarn", "taobao", "tencent", "npmMirror", "github"];
    assert InsertedDefaults(1) == map["npm" := "https://registry.npmjs.org/"];
    assert InsertedDefaults(2) == InsertedDefaults(1)["yarn" := "https://registry.yarnpkg.com/"];
    assert InsertedDefaults(3) == InsertedDefaults(2)["taobao" := "https://registry.npmmirror.com/"];
    assert InsertedDefaults(4) == InsertedDefaults(3)["tencent" := "https://mirrors.cloud.tencent.com/npm/"];
    assert InsertedDefaults(5) == InsertedDefaults(4)["npmMirror" := "https://skimdb.npmjs.com/registry/"];
    assert InsertedDefaults(6) == InsertedDefaults(5)["github" := "https://npm.pkg.github.com/"];
  }

  /** The only URLs `add_registry` and `edit_registry` accept. */
  predicate IsHttpUrl(url: string)
    ensures IsHttpUrl(url) ==> StartsWith(url, "http") && |url| >= |"http://"|
  {
    StartsWith(url, "http://") || StartsWith(url, "https://")
  }

  /** The display order with every occurrence of the given names removed;
      `WithoutAppend` shows the other names keep their order. */
  function Without(order: seq<string>, names: set<string>): (r: seq<string>)
    ensures forall n :: n in r <==> n in order && n !in names
  {
    if order == [] then []
    else if order[0] in names then Without(order[1..], names)
    else [order[0]] + Without(order[1..], names)
  }

  /** Removing names from a concatenation removes them from each part, so
      the names that stay keep their relative order. */
  lemma {:induction false} WithoutAppend(a: seq<string>, b: seq<string>, names: set<string>)
    ensures Without(a + b, names) == Without(a, names) + Without(b, names)
  {
    if a == [] {
      assert a + b == b;
    } else {
      assert (a + b)[0] == a[0] && (a + b)[1..] == a[1..] + b;
      WithoutAppend(a[1..], b, names);
    }
  }

  /** Removing names one batch after another is removing them all at once. */
  lemma {:induction false} WithoutTwice(order: seq<string>, a: set<string>, b: set<string>)
    ensures Without(Without(order, a), b) == Without(order, a + b)
  {
    if order != [] {
      WithoutTwice(order[1..], a, b);
    }
  }

  /** Removing no name leaves the order as it is. */
  lemma {:induction false} WithoutNothing(order: seq<string>)
    ensures Without(order, {}) == order
  {
    if order != [] {
      WithoutNothing(order[1..]);
      assert order == [order[0]] + order[1..];
    }
  }

  /** What `update_npmrc` does to the `.npmrc`: the backup copy it writes
      (if asked to and the file exists) and the change to the file itself. */
  datatype NpmrcUpdate = NpmrcUpdate(backupCopy: Option<string>, npmrc: FileChange)

  /** The text `update_npmrc` writes: every line that does not set the
      registry, in order, then `registry=<url>`, joined by '\n' with a final '\n'. */
  function RewrittenNpmrc(npmrc: Option<string>, url: string): string {
    Render(NonRegistryLines(LinesOf(npmrc)) + [RegistryKey + url])
  }

  /** A URL that reads back unchanged from a `registry=` line: no '\n' in
      it and no white space at its end (which `trim` would drop). */
  predicate IsLineSafe(url: string) {
    '\n' !in url && (url == [] || !IsWhitespace(url[|url| - 1]))
  }

  lemma RegistryLineFor(url: string)
    requires IsLineSafe(url)
    ensures IsRegistryLine(RegistryKey + url) && LineUrl(RegistryKey + url) == url
    ensures '\n' !in RegistryKey + url && !EndsWithCr(RegistryKey + url)
  {
    var line := RegistryKey + url;
    assert line[0] == 'r' && line[|line| - 1] == (if url == [] then '=' else url[|url| - 1]);
    assert TrimStart(line) == line;
    assert TrimEnd(line) == line;
    assert line[..|RegistryKey|] == RegistryKey;
  }

  /** The rewrite keeps every other line of the file verbatim and in order
      and adds exactly one registry line, the last one. */
  lemma RewriteKeepsOtherLines(npmrc: Option<string>, url: string)
    requires IsLineSafe(url)
    requires forall i :: 0 <= i < |LinesOf(npmrc)| ==> !EndsWithCr(LinesOf(npmrc)[i])
    ensures SplitLines(RewrittenNpmrc(npmrc, url)) == NonRegistryLines(LinesOf(npmrc)) + [RegistryKey + url]
  {
    var lines := LinesOf(npmrc);
    var written := NonRegistryLines(lines) + [RegistryKey + url];
    NonRegistryLinesFrom(lines);
    RegistryLineFor(url);
    forall i | 0 <= i < |written| ensures '\n' !in written[i] && !EndsWithCr(written[i]) {
      if i < |written| - 1 {
        assert written[i] in lines;
      }
    }
    SplitRender(written);
  }

  /** Reading the registry line back from the rewritten file gives the URL
      that was written, less its trailing white space, whatever the other
      lines hold, provided the URL holds no '\n'. */
  lemma RewriteReadsTrimmed(npmrc: Option<string>, url: string)
    requires '\n' !in url
    ensures FirstRegistryUrl(SplitLines(RewrittenNpmrc(npmrc, url))) == Some(TrimEnd(url))
  {
    var kept := NonRegistryLines(LinesOf(npmrc));
    var written := kept + [RegistryKey + url];
    NonRegistryLinesNoNewline(LinesOf(npmrc));
    assert '\n' !in RegistryKey + url by {
      assert forall i :: 0 <= i < |RegistryKey| ==> (RegistryKey + url)[i] == RegistryKey[i];
    }
    assert forall i :: 0 <= i < |written| ==> '\n' !in written[i] by {
      assert forall i :: 0 <= i < |kept| ==> written[i] == kept[i];
    }
    SplitRenderStripsCr(written);
    RegistryLineReadsTrimmed(url);
    ReadBackAfterKept(kept, RegistryKey + url);
  }

  /** For a URL that is safe on a line, the URL read back is the URL written. */
  lemma RewriteReadsBack(npmrc: Option<string>, url: string)
    requires IsLineSafe(url)
    ensures FirstRegistryUrl(SplitLines(RewrittenNpmrc(npmrc, url))) == Some(url)
  {
    RewriteReadsTrimmed(npmrc, url);
  }

  /** `add_registry` and `edit_registry` test only the scheme, so they accept
      `http://x ` with a trailing space. Once selected, it is written to the
      `.npmrc`, and the next `load` reads it back as `http://x`, a URL no
      entry has. */
  lemma PaddedUrlReadsTrimmed()
    ensures IsHttpUrl("http://x ") && !IsLineSafe("http://x ")
    ensures FirstRegistryUrl(SplitLines(RewrittenNpmrc(None, "http://x "))) == Some("http://x")
  {
    var url := "http://x ";
    assert url[..|"http://"|] == "http://";
    assert '\n' !in url;
    RewriteReadsTrimmed(None, url);
    assert url[|url| - 1] == ' ' && url[..|url| - 1] == "http://x";
    assert TrimEnd(url) == TrimEnd("http://x");
    assert "http://x"[|"http://x"| - 1] == 'x';
  }

  /** What the operations keep: only built-in names are built-in, the
      selection names a known registry, and the display order lists exactly
      the known names. */
  ghost predicate ValidProfile(registries: map<string, string>, custom: map<string, string>,
                               order: seq<string>, current: Option<string>)
  {
    && registries.Keys <= DefaultNames
    && (current.Some? ==> current.value in registries || current.value in custom)
    && (forall n :: n in order <==> n in registries || n in custom)
  }

  /** Adding a custom registry, listing it and selecting it keeps the profile valid. */
  lemma AddSelectKeepsValid(registries: map<string, string>, custom: map<string, string>,
                            order: seq<string>, current: Option<string>, name: string, url: string)
    requires ValidProfile(registries, custom, order, current)
    ensures ValidProfile(registries, custom[name := url],
                         if name in order then order else order + [name], Some(name))
  {
    var order' := if name in order then order else order + [name];
    forall n ensures n in order' <==> n in registries || n in custom[name := url] {
      assert n in order' <==> n in order || n == name;
    }
  }

  /** The URL a name stands for: a built-in entry wins over a custom one
      of the same name. */
  function LookupUrl(registries: map<string, string>, custom: map<string, string>, name: string): (url: string)
    requires name in registries || name in custom
    ensures url in registries.Values || url in custom.Values
    ensures name in registries ==> url == registries[name]
    ensures name !in registries ==> url == custom[name]
  {
    if name in registries then registries[name] else custom[name]
  }

  /** A registry `load` discovers in the `.npmrc` is named after its host
      checked against the custom names only, so it can take a built-in's
      name; every later lookup of that name then gives the built-in URL,
      not the one that was read. */
  lemma DiscoveredNameShadowed()
    ensures Host("http://npm/") == "npm"
    ensures IsDerivedName("http://npm/", map[], "npm")
    ensures "npm" in DefaultRegistryMap
    ensures LookupUrl(DefaultRegistryMap, map["npm" := "http://npm/"], "npm") != "http://npm/"
  {
    var url := "http://npm/";
    assert StartsWith(url, "http://");
    assert url[|"http://"|..] == "npm/";
    assert !StartsWith("npm/", "http://");
    assert TrimStartMatches(url, "http://") == "npm/";
    assert !StartsWith("npm/", "https://");
    assert TrimStartMatches("npm/", "https://") == "npm/";
    assert UpToSlash("npm/") == "npm";
  }

  class Config {
    var registries: map<string, string>
    var customRegistries: map<string, string>
    var registryOrder: seq<string>
    var current: Option<string>

    /** A name the profile knows, built-in or custom; its URL is one of the profile's URLs. */
    predicate Has(name: string)
      reads this
      ensures Has(name) ==>
        && (name in registries || name in customRegistries)
        && HasUrl(LookupUrl(registries, customRegistries, name))
    {
      name in registries || name in customRegistries
    }

    /** The URL a name stands for in this profile, the built-in one first. */
    function UrlOf(name: string): (url: string)
      reads this
      requires Has(name)
      ensures HasUrl(url)
      ensures name in registries ==> url == registries[name]
      ensures name !in registries ==> url == customRegistries[name]
    {
      LookupUrl(registries, customRegistries, name)
    }

    /** Some entry, built-in or custom, has this URL (a custom entry whose
        name a built-in shadows included). */
    predicate HasUrl(url: string)
      reads this
      ensures HasUrl(url) <==> exists n ::
        || (n in registries && registries[n] == url)
        || (n in customRegistries && customRegistries[n] == url)
    {
      url in registries.Values || url in customRegistries.Values
    }

    ghost predicate Valid()
      reads this
    {
      ValidProfile(registries, customRegistries, registryOrder, current)
    }

    /** `Config::new`. */
    constructor ()
      ensures registries == DefaultRegistryMap && customRegistries == map[]
      ensures registryOrder == DefaultOrder && current == None
      ensures Valid()
    {
      var regs: map<string, string> := map[];
      var order: seq<string> := [];
      for i := 0 to |DefaultRegistries|
        invariant regs == InsertedDefaults(i)
        invariant order == DefaultOrder[..i]
      {
        var (name, url) := DefaultRegistries[i];
        regs := regs[name := url];
        order := order + [name];
      }
      DefaultsInserted();
      registries := regs;
      customRegistries := map[];
      registryOrder := order;
      current := None;
    }

    /** `add_registry`. */
    method AddRegistry(name: string, url: string) returns (r: Result<()>)
      modifies this
      ensures !IsHttpUrl(url) ==> r == Err(InvalidRegistryUrl(url)) && unchanged(this)
      ensures IsHttpUrl(url) ==> r == Ok(())
      ensures IsHttpUrl(url) && old(HasUrl(url)) ==> unchanged(this)
      ensures IsHttpUrl(url) && !old(HasUrl(url)) ==>
        && customRegistries == old(customRegistries)[name := url]
        && registryOrder == (if name in old(registryOrder) then old(registryOrder) else old(registryOrder) + [name])
        && registries == old(registries) && current == old(current)
      ensures old(Valid()) ==> Valid()
    {
      if !IsHttpUrl(url) {
        return Err(InvalidRegistryUrl(url));
      }
      if HasUrl(url) {
        return Ok(());
      }
      customRegistries := customRegistries[name := url];
      if name !in registryOrder {
        registryOrder := registryOrder + [name];
      }
      return Ok(());
    }

    /** `edit_registry`: the name is checked before the URL. */
    method EditRegistry(name: string, newUrl: string) returns (r: Result<()>)
      modifies this
      ensures !old(Has(name)) ==> r == Err(RegistryNotFound(name)) && unchanged(this)
      ensures old(Has(name)) && !IsHttpUrl(newUrl) ==> r == Err(InvalidRegistryUrl(newUrl)) && unchanged(this)
      ensures old(Has(name)) && IsHttpUrl(newUrl) ==>
        && r == Ok(())
        && (if name in old(registries)
            then registries == old(registries)[name := newUrl] && customRegistries == old(customRegistries)
            else customRegistries == old(customRegistries)[name := newUrl] && registries == old(registries))
        && registryOrder == old(registryOrder) && current == old(current)
      ensures old(Valid()) ==> Valid()
    {
      if !Has(name) {
        return Err(RegistryNotFound(name));
      }
      if !IsHttpUrl(newUrl) {
        return Err(InvalidRegistryUrl(newUrl));
      }
      if name in registries {
        registries := registries[name := newUrl];
      } else {
        customRegistries := customRegistries[name := newUrl];
      }
      return Ok(());
    }

    /** `remove_registry`: the name leaves both maps and the display order,
        and the selection if it was the selected one. */
    method RemoveRegistry(name: string) returns (r: Result<()>)
      modifies this
      ensures !old(Has(name)) ==> r == Err(RegistryNotFound(name)) && unchanged(this)
      ensures old(Has(name)) ==>
        && r == Ok(())
        && registries == old(registries) - {name}
        && customRegistries == old(customRegistries) - {name}
        && registryOrder == Without(old(registryOrder), {name})
        && current == (if old(current) == Some(name) then None else old(current))
      ensures old(Valid()) ==> Valid()
    {
      var wasDefault := name in registries;
      var wasCustom := name in customRegistries;
      registries := registries - {name};
      customRegistries := customRegistries - {name};
      if !wasDefault && !wasCustom {
        assert registries == old(registries) && customRegistries == old(customRegistries);
        return Err(RegistryNotFound(name));
      }
      registryOrder := Without(registryOrder, {name});
      if current == Some(name) {
        current := None;
      }
      return Ok(());
    }

    /** `update_npmrc`: with nothing selected the file is left alone; a
        selection that names no registry is an error; otherwise the file
        is rewritten with the selected registry's URL, after a backup copy
        when one is asked for and the file exists. */
    method UpdateNpmrc(backup: bool, npmrc: Option<string>) returns (r: Result<NpmrcUpdate>)
      ensures current.None? ==> r == Ok(NpmrcUpdate(None, Unchanged))
      ensures current.Some? && !Has(current.value) ==> r == Err(RegistryNotFound(current.value))
      ensures current.Some? && Has(current.value) ==>
        r == Ok(NpmrcUpdate(if backup then npmrc else None,
                            Write(RewrittenNpmrc(npmrc, UrlOf(current.value)))))
    {
      if current.None? {
        return Ok(NpmrcUpdate(None, Unchanged));
      }
      var name := current.value;
      var url;
      if name in registries {
        url := registries[name];
      } else if name in customRegistries {
        url := customRegistries[name];
      } else {
        return Err(RegistryNotFound(name));
      }
      var backupCopy := if backup && npmrc.Some? then npmrc else None;
      var lines := [];
      if npmrc.Some? {
        lines := KeepNonRegistryLines(SplitLines(npmrc.value));
      }
      lines := lines + [RegistryKey + url];
      return Ok(NpmrcUpdate(backupCopy, Write(Render(lines))));
    }

    /** `set_current` (the `use` command): selects a known registry and
        rewrites the `.npmrc` for it. */
    method SetCurrent(name: string, backup: bool, npmrc: Option<string>) returns (r: Result<NpmrcUpdate>)
      modifies this
      ensures !old(Has(name)) ==> r == Err(RegistryNotFound(name)) && unchanged(this)
      ensures old(Has(name)) ==>
        && current == Some(name)
        && registries == old(registries) && customRegistries == old(customRegistries)
        && registryOrder == old(registryOrder)
        && r == Ok(NpmrcUpdate(if backup then npmrc else None, Write(RewrittenNpmrc(npmrc, old(UrlOf(name))))))
      ensures old(Valid()) ==> Valid()
    {
      if !Has(name) {
        return Err(RegistryNotFound(name));
      }
      current := Some(name);
      r := UpdateNpmrc(backup, npmrc);
    }

    /** The first step of `load`: an empty display order is rebuilt from
        all names, built-in then custom, sorted (a name in both maps is
        listed twice). */
    method NormalizeOrder()
      modifies this
      ensures registries == old(registries) && customRegistries == old(customRegistries)
      ensures current == old(current)
      ensures old(registryOrder) != [] ==> registryOrder == old(registryOrder)
      ensures old(registryOrder) == [] ==>
        && Sorting.SortedBy(registryOrder, LexLe)
        && multiset(registryOrder) == multiset(registries.Keys) + multiset(customRegistries.Keys)
      ensures old(registryOrder) == [] ==> forall n :: n in registryOrder <==> Has(n)
      ensures old(Valid()) ==> Valid()
    {
      if registryOrder == [] {
        var builtins := Sorting.Collect(registries.Keys);
        var customs := Sorting.Collect(customRegistries.Keys);
        registryOrder := Sorting.SortStrings(builtins + customs);
        forall n ensures n in registryOrder <==> Has(n) {
          assert n in registryOrder <==> n in multiset(registryOrder);
          assert n in registries <==> n in multiset(registries.Keys);
          assert n in customRegistries <==> n in multiset(customRegistries.Keys);
        }
      }
    }

    /** The rest of `load`: the first `registry=` line of the global
        `.npmrc`, if there is one, is matched against the profile. */
    method SyncCurrent(npmrc: Option<string>)
      modifies this
      ensures var url := FirstRegistryUrl(LinesOf(npmrc));
        && (url.None? ==> unchanged(this))
        && (url.Some? ==> MatchedUrl(url.value))
      ensures old(Valid()) ==> Valid()
    {
      var url := ReadRegistryUrl(npmrc);
      if url.Some? {
        MatchUrl(url.value);
      }
    }

    /** What matching a URL from the `.npmrc` does to the profile: the
        built-in registry with that URL is selected, else a custom one with
        it (which one, when several share the URL, is left open, as a
        `HashMap` scan leaves it); an unknown non-empty URL is added as a
        custom registry under a derived name and selected; an empty unknown
        URL changes nothing. The built-in map never changes. */
    twostate predicate MatchedUrl(url: string)
      reads this
    {
      && registries == old(registries)
      && (url in old(registries.Values) ==>
            && current.Some? && current.value in old(registries)
            && old(registries)[current.value] == url
            && customRegistries == old(customRegistries) && registryOrder == old(registryOrder))
      && (url !in old(registries.Values) && url in old(customRegistries.Values) ==>
            && current.Some? && current.value in old(customRegistries)
            && old(customRegistries)[current.value] == url
            && customRegistries == old(customRegistries) && registryOrder == old(registryOrder))
      && (!old(HasUrl(url)) && url == "" ==>
            customRegistries == old(customRegistries) && registryOrder == old(registryOrder)
            && current == old(current))
      && (!old(HasUrl(url)) && url != "" ==>
            && current.Some? && IsDerivedName(url, old(customRegistries), current.value)
            && customRegistries == old(customRegistries)[current.value := url]
            && registryOrder == (if current.value in old(registryOrder) then old(registryOrder)
                                 else old(registryOrder) + [current.value]))
    }

    method MatchUrl(url: string)
      modifies this
      ensures MatchedUrl(url)
      ensures old(Valid()) ==> Valid()
    {
      if url in registries.Values {
        var name :| name in registries && registries[name] == url;
        current := Some(name);
      } else if url in customRegistries.Values {
        var name :| name in customRegistries && customRegistries[name] == url;
        current := Some(name);
      } else if url != "" {
        AddDiscovered(url);
      }
    }

    /** The last branch of the match: the URL is unknown and not empty. */
    method AddDiscovered(url: string)
      requires !HasUrl(url) && url != ""
      modifies this
      ensures registries == old(registries)
      ensures current.Some? && IsDerivedName(url, old(customRegistries), current.value)
      ensures customRegistries == old(customRegistries)[current.value := url]
      ensures registryOrder == (if current.value in old(registryOrder) then old(registryOrder)
                                else old(registryOrder) + [current.value])
      ensures old(Valid()) ==> Valid()
    {
      var name := DeriveRegistryName(url, customRegistries);
      if Valid() {
        AddSelectKeepsValid(registries, customRegistries, registryOrder, current, name, url);
      }
      customRegistries := customRegistries[name := url];
      if name !in registryOrder {
        registryOrder := registryOrder + [name];
      }
      current := Some(name);
    }
  }
}
