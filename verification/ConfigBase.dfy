/** The configuration object that hotkeys and filters are kept in (src/scim_config_base.h:105-260). */
module ConfigBase {
  import opened Common

  function Get(entries: map<string, string>, key: string, defVal: string): string {
    if key in entries then entries[key] else defVal
  }

  /** The key of a named entry below a common prefix. */
  function Path(prefix: string, name: string): string { prefix + name }

  lemma PathsDiffer(prefix: string, a: string, b: string)
    ensures Path(prefix, a) == Path(prefix, b) <==> a == b
  {
    assert Path(prefix, a)[|prefix|..] == a && Path(prefix, b)[|prefix|..] == b;
  }

  class Config {
    var entries: map<string, string>
    var valid: bool

    method Read(key: string, defVal: string) returns (val: string)
      ensures val == Get(entries, key, defVal)
    {
      val := if key in entries then entries[key] else defVal;
    }

    method Write(key: string, val: string)
      modifies this`entries
      ensures entries == old(entries)[key := val]
    {
      entries := entries[key := val];
    }

    method Erase(key: string)
      modifies this`entries
      ensures entries == old(entries) - {key}
    {
      entries := entries - {key};
    }
  }
}
