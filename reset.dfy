/** src/commands/reset.rs: rebuilding the profile from the defaults. */
module Reset {
  import opened Errors
  import opened Text
  import Sorting
  import Config

  /** `reset::execute`. Without `yes` nothing is rebuilt and nothing saved
      (`None`). With `yes` the saved profile has the default built-in
      registries (edits to their URLs are dropped); with `all` it is
      exactly `Config::new()`, otherwise it keeps the custom registries and
      the selection, and its display order is the sorted list of all names. */
  method Execute(config: Config.Config, yes: bool, all: bool) returns (saved: Option<Config.Config>)
    ensures !yes ==> saved == None
    ensures yes ==> saved.Some? && fresh(saved.value)
    ensures yes ==> saved.value.registries == Config.DefaultRegistryMap
    ensures yes && all ==>
      && saved.value.customRegistries == map[]
      && saved.value.registryOrder == Config.DefaultOrder
      && saved.value.current == None
    ensures yes && !all ==>
      && saved.value.customRegistries == config.customRegistries
      && saved.value.current == config.current
      && Sorting.SortedBy(saved.value.registryOrder, LexLe)
      && multiset(saved.value.registryOrder) == multiset(Config.DefaultNames) + multiset(config.customRegistries.Keys)
    ensures yes && config.Valid() ==> saved.value.Valid()
  {
    if !yes {
      return None;
    }
    var rebuilt := new Config.Config();
    if !all {
      var builtins := Sorting.Collect(Config.DefaultNames);
      var customs := Sorting.Collect(config.customRegistries.Keys);
      var order := Sorting.SortStrings(builtins + customs);
      if config.Valid() {
        CarriedOverValid(config.registries, config.customRegistries, config.registryOrder, config.current, order);
      }
      rebuilt.customRegistries := config.customRegistries;
      rebuilt.registryOrder := order;
      rebuilt.current := config.current;
    }
    return Some(rebuilt);
  }

  /** The carried-over profile is valid when the old one was: the selection
      is still a known name and the rebuilt order lists exactly the known names. */
  lemma CarriedOverValid(registries: map<string, string>, custom: map<string, string>,
                         order: seq<string>, current: Option<string>, order': seq<string>)
    requires Config.ValidProfile(registries, custom, order, current)
    requires multiset(order') == multiset(Config.DefaultNames) + multiset(custom.Keys)
    ensures Config.ValidProfile(Config.DefaultRegistryMap, custom, order', current)
  {
    Config.DefaultsInserted();
    forall n ensures n in order' <==> n in Config.DefaultRegistryMap || n in custom {
      assert n in order' <==> n in multiset(order');
      assert n in Config.DefaultNames <==> n in multiset(Config.DefaultNames);
      assert n in custom <==> n in multiset(custom.Keys);
    }
  }
}
