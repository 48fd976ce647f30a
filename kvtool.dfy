/**
 * The store side of cmd/kvtool/main.go: a configuration maps namespace names
 * to named stores, `getStoreKV` picks one store out of it, and
 * `mapToFlagArgs` turns the store's `args` object into command-line flags.
 */
module Kvtool {
  import opened Wrappers
  import opened Text
  import opened Json

  /** One configured store: its `type` and its free-form `args` object. */
  datatype Store = Store(storeType: string, args: map<string, JVal>)

  /** The decoded configuration file: a version and namespace -> store key -> store. */
  datatype StoreConfig = StoreConfig(version: real, namespaces: map<string, map<string, Store>>)

  /** The four ways `getStoreKV` fails; each names what was looked for. */
  datatype ResolveError =
    | NamespaceNotFound(ns: string)
    | NoStores(ns: string)
    | StoreNotFound(store: string, ns: string)
    | MultipleStores

  /** The namespace actually consulted: an empty name means `default`, any other name itself. */
  function NamespaceName(nsName: string): (r: string)
    ensures r != ""
    ensures nsName != "" ==> r == nsName
    ensures r != nsName ==> r == "default"
  {
    if nsName == "" then "default" else nsName
  }

  /** A map with exactly one entry has exactly one key. */
  lemma SingleKey<V>(ns: map<string, V>)
    requires |ns| == 1
    ensures forall a, b :: a in ns && b in ns ==> a == b
  {
    var k :| k in ns;
    forall a, b | a in ns && b in ns ensures a == b {
      if a != b {
        assert {a, b} <= ns.Keys;
        assert |{a, b}| == 2;
        SubsetSize({a, b}, ns.Keys);
      }
    }
  }

  /** A subset is no larger than its superset. */
  lemma {:induction false} SubsetSize(a: set<string>, b: set<string>)
    requires a <= b
    ensures |a| <= |b|
    decreases b
  {
    if a != {} {
      var x :| x in a;
      SubsetSize(a - {x}, b - {x});
    }
  }

  /**
   * `getStoreKV`: resolves the namespace (empty means `default`), then either
   * the named store or, when no store is named, the namespace's only store.
   */
  function GetStoreKV(cfg: StoreConfig, nsName: string, storeKey: string): (r: Result<(string, Store), ResolveError>)
    ensures var n := NamespaceName(nsName);
      && (r == Err(NamespaceNotFound(n)) <==> n !in cfg.namespaces)
      && (r == Err(NoStores(n)) <==> n in cfg.namespaces && |cfg.namespaces[n]| == 0)
      && (r == Err(StoreNotFound(storeKey, n)) <==>
            n in cfg.namespaces && |cfg.namespaces[n]| > 0 && storeKey != "" && storeKey !in cfg.namespaces[n])
      && (r == Err(MultipleStores) <==> n in cfg.namespaces && storeKey == "" && |cfg.namespaces[n]| >= 2)
      && (r.Ok? <==>
            n in cfg.namespaces && |cfg.namespaces[n]| > 0
            && (storeKey != "" ==> storeKey in cfg.namespaces[n])
            && (storeKey == "" ==> |cfg.namespaces[n]| == 1))
      && (r.Ok? ==> r.value.0 in cfg.namespaces[n] && r.value.1 == cfg.namespaces[n][r.value.0])
      && (r.Ok? && storeKey != "" ==> r.value.0 == storeKey)
  {
    var n := NamespaceName(nsName);
    if n !in cfg.namespaces then Err(NamespaceNotFound(n))
    else
      var ns := cfg.namespaces[n];
      if |ns| == 0 then Err(NoStores(n))
      else if storeKey != "" then
        if storeKey in ns then Ok((storeKey, ns[storeKey])) else Err(StoreNotFound(storeKey, n))
      else if |ns| == 1 then
        SingleKey(ns);
        var k :| k in ns;
        Ok((k, ns[k]))
      else Err(MultipleStores)
  }

  /** Leaving the namespace empty is the same as naming `default`. */
  lemma EmptyNamespaceIsDefault(cfg: StoreConfig, storeKey: string)
    ensures GetStoreKV(cfg, "", storeKey) == GetStoreKV(cfg, "default", storeKey)
  {
  }

  /** With no store named and one store configured, that store is returned, whatever its key. */
  lemma SoleStoreChosen(cfg: StoreConfig, nsName: string, k: string, st: Store)
    requires NamespaceName(nsName) in cfg.namespaces
    requires cfg.namespaces[NamespaceName(nsName)] == map[k := st]
    ensures GetStoreKV(cfg, nsName, "") == Ok((k, st))
  {
  }

  /**
   * What one argument contributes after its flag, if anything: `fmt.Sprint`
   * of a number, the string itself, `json.Marshal` of an array or object,
   * nothing for null, and for a boolean the `true`/`false` after `=`.
   */
  function FlagText(v: JVal, f: Formats): Option<string> {
    match v
    case JNull => None
    case JBool(b) => Some(BoolText(b))
    case JNum(x) => Some(f.number(x))
    case JStr(s) => Some(s)
    case _ => Some(f.marshal(v))
  }

  /** The elements `mapToFlagArgs` appends for one key: the switch on the value's kind. */
  function FlagsFor(k: string, v: JVal, f: Formats): (r: seq<string>)
    ensures |r| <= 2
    ensures r == [] <==> v.JNull?
    ensures v.JBool? ==> r == ["-" + k + "=" + BoolText(v.b)]
    ensures !v.JNull? && !v.JBool? ==> r == ["-" + k, FlagText(v, f).value]
  {
    match v
    case JBool(b) => ["-" + k + "=" + BoolText(b)]
    case JStr(s) => ["-" + k, s]
    case JNum(x) => ["-" + k, f.number(x)]
    case JNull => []
    case _ => ["-" + k, f.marshal(v)]
  }

  /** The flags for `keys`, in that order. */
  function Flatten(keys: seq<string>, m: map<string, JVal>, f: Formats): seq<string>
    requires forall i :: 0 <= i < |keys| ==> keys[i] in m
  {
    if keys == [] then [] else FlagsFor(keys[0], m[keys[0]], f) + Flatten(keys[1..], m, f)
  }

  /**
   * `mapToFlagArgs`: collects the keys, sorts them, and appends each key's
   * flags in that order; an empty map gives no arguments.
   */
  method MapToFlagArgs(m: map<string, JVal>, f: Formats) returns (out: seq<string>)
    ensures out == Flatten(SortedKeys(m.Keys), m, f)
    ensures |m| == 0 ==> out == []
  {
    if |m| == 0 {
      return [];
    }
    var sorted := SortedKeyList(m);
    assert forall i :: 0 <= i < |sorted| ==> sorted[i] in sorted;
    out := AppendFlags(sorted, m, f);
  }

  /** The second half of `mapToFlagArgs`: the flags of each key, in the given order. */
  method AppendFlags(keys: seq<string>, m: map<string, JVal>, f: Formats) returns (out: seq<string>)
    requires forall i :: 0 <= i < |keys| ==> keys[i] in m
    ensures out == Flatten(keys, m, f)
  {
    out := [];
    for i := 0 to |keys|
      invariant out == Flatten(keys[..i], m, f)
    {
      var k := keys[i];
      var flags := KeyFlags(k, m[k], f);
      FlattenSnoc(keys[..i], k, m, f);
      assert keys[..i + 1] == keys[..i] + [k];
      out := out + flags;
    }
    assert keys[..|keys|] == keys;
  }

  /** The flags of one key more are appended after those of the keys before it. */
  lemma {:induction false} FlattenSnoc(keys: seq<string>, k: string, m: map<string, JVal>, f: Formats)
    requires forall i :: 0 <= i < |keys| ==> keys[i] in m
    requires k in m
    ensures Flatten(keys + [k], m, f) == Flatten(keys, m, f) + FlagsFor(k, m[k], f)
  {
    if keys == [] {
      assert keys + [k] == [k];
    } else {
      FlattenSnoc(keys[1..], k, m, f);
      assert (keys + [k])[1..] == keys[1..] + [k];
    }
  }

  /** The body of `mapToFlagArgs`'s loop: the switch on the kind of one key's value. */
  method KeyFlags(k: string, v: JVal, f: Formats) returns (flags: seq<string>)
    ensures flags == FlagsFor(k, v, f)
  {
    var flagName := "-" + k;
    match v {
      case JBool(b) =>
        flags := [flagName + "=" + BoolText(b)];
      case JStr(s) =>
        flags := [flagName, s];
      case JNum(x) =>
        flags := [flagName, f.number(x)];
      case JNull =>
        flags := [];
      case _ =>
        flags := [flagName, f.marshal(v)];
    }
  }

  /** The first half of `mapToFlagArgs`: the map's keys, gathered and then sorted. */
  method SortedKeyList<V>(m: map<string, V>) returns (sorted: seq<string>)
    ensures sorted == SortedKeys(m.Keys)
  {
    var keys: seq<string> := [];
    var rest := m.Keys;
    while rest != {}
      invariant rest <= m.Keys
      invariant forall k :: k in keys <==> k in m.Keys - rest
      invariant forall i, j :: 0 <= i < j < |keys| ==> keys[i] != keys[j]
      decreases rest
    {
      var k :| k in rest;
      assert k !in keys;
      keys := keys + [k];
      rest := rest - {k};
    }
    sorted := SortStrings(keys);
    forall x ensures x in sorted <==> x in SortedKeys(m.Keys) {
      assert x in sorted <==> x in multiset(sorted);
      assert x in keys <==> x in multiset(keys);
    }
    SortedUnique(sorted, SortedKeys(m.Keys));
  }

  /** Each key contributes at most a flag and its value. */
  lemma {:induction false} FlattenLength(keys: seq<string>, m: map<string, JVal>, f: Formats)
    requires forall i :: 0 <= i < |keys| ==> keys[i] in m
    ensures |Flatten(keys, m, f)| <= 2 * |keys|
  {
    if keys != [] {
      FlattenLength(keys[1..], m, f);
    }
  }

  /** A flag as a reader of the arguments sees it: its name and its text. */
  datatype Flag = Flag(name: string, text: string)

  /**
   * Reads back arguments of the shapes `mapToFlagArgs` writes: `-name=text`
   * in one element, or `-name` followed by the text in the next element.
   */
  function ReadFlags(args: seq<string>): Option<seq<Flag>>
    decreases |args|
  {
    if args == [] then Some([])
    else
      var a := args[0];
      if a == [] || a[0] != '-' then None
      else
        var body := a[1..];
        var i := IndexOf(body, '=');
        if i >= 0 then
          match ReadFlags(args[1..])
          case None => None
          case Some(rest) => Some([Flag(body[..i], body[i + 1..])] + rest)
        else if |args| < 2 then None
        else
          match ReadFlags(args[2..])
          case None => None
          case Some(rest) => Some([Flag(body, args[1])] + rest)
  }

  /** The flags the arguments for `keys` stand for: every key whose value is not null. */
  function Expected(keys: seq<string>, m: map<string, JVal>, f: Formats): seq<Flag>
    requires forall i :: 0 <= i < |keys| ==> keys[i] in m
  {
    if keys == [] then []
    else
      var rest := Expected(keys[1..], m, f);
      match FlagText(m[keys[0]], f)
      case None => rest
      case Some(t) => [Flag(keys[0], t)] + rest
  }

  /** One key's flags read back as that key's flag. */
  lemma ReadFlagsFor(k: string, v: JVal, f: Formats, tail: seq<string>, rest: seq<Flag>)
    requires '=' !in k && !v.JNull?
    requires ReadFlags(tail) == Some(rest)
    ensures ReadFlags(FlagsFor(k, v, f) + tail) == Some([Flag(k, FlagText(v, f).value)] + rest)
  {
    if v.JBool? {
      ReadJoinedFlag(k, BoolText(v.b), tail, rest);
    } else {
      ReadSplitFlag(k, FlagText(v, f).value, tail, rest);
    }
  }

  /** `-k=t` reads back as the flag `k` with text `t`. */
  lemma ReadJoinedFlag(k: string, t: string, tail: seq<string>, rest: seq<Flag>)
    requires '=' !in k
    requires ReadFlags(tail) == Some(rest)
    ensures ReadFlags(["-" + k + "=" + t] + tail) == Some([Flag(k, t)] + rest)
  {
    var args := ["-" + k + "=" + t] + tail;
    JoinedFlagBody(k, t);
    assert args[1..] == tail;
  }

  /** The text after the dash of `-k=t` splits at its first `=` into `k` and `t`. */
  lemma JoinedFlagBody(k: string, t: string)
    requires '=' !in k
    ensures var a := "-" + k + "=" + t;
      a[0] == '-' && a[1..] == k + "=" + t && IndexOf(a[1..], '=') == |k|
      && a[1..][..|k|] == k && a[1..][|k| + 1..] == t
  {
    var body := k + "=" + t;
    assert ("-" + k + "=" + t)[1..] == body;
    assert body[..|k|] == k;
    IndexOfAt(body, '=', |k|);
    assert body[|k| + 1..] == t;
  }

  /** `-k` followed by `t` reads back as the flag `k` with text `t`. */
  lemma ReadSplitFlag(k: string, t: string, tail: seq<string>, rest: seq<Flag>)
    requires '=' !in k
    requires ReadFlags(tail) == Some(rest)
    ensures ReadFlags(["-" + k, t] + tail) == Some([Flag(k, t)] + rest)
  {
  }

  /**
   * The arguments read back as exactly one flag per non-null key, in key
   * order, carrying the key's text; this needs keys without `=`, as `-k=v`
   * would otherwise be split at the key's own `=`.
   */
  lemma {:induction false} FlattenReadsBack(keys: seq<string>, m: map<string, JVal>, f: Formats)
    requires forall i :: 0 <= i < |keys| ==> keys[i] in m && '=' !in keys[i]
    ensures ReadFlags(Flatten(keys, m, f)) == Some(Expected(keys, m, f))
  {
    if keys != [] {
      var k := keys[0];
      var rest := keys[1..];
      forall i | 0 <= i < |rest| ensures rest[i] in m && '=' !in rest[i] {
        assert rest[i] == keys[i + 1];
      }
      FlattenReadsBack(rest, m, f);
      var tail := Flatten(rest, m, f);
      assert Flatten(keys, m, f) == FlagsFor(k, m[k], f) + tail;
      if m[k].JNull? {
        assert FlagsFor(k, m[k], f) + tail == tail;
      } else {
        ReadFlagsFor(k, m[k], f, tail, Expected(rest, m, f));
      }
    }
  }

  /**
   * `mapToFlagArgs` read back: one flag per non-null argument, in ascending
   * key order, named by the key and carrying its text, when no key contains
   * `=` (as for `FlattenReadsBack`).
   */
  lemma MapToFlagArgsReadsBack(m: map<string, JVal>, f: Formats)
    requires forall k :: k in m ==> '=' !in k
    ensures var keys := SortedKeys(m.Keys);
      StrictlySorted(keys) && ReadFlags(Flatten(keys, m, f)) == Some(Expected(keys, m, f))
  {
    var keys := SortedKeys(m.Keys);
    forall i | 0 <= i < |keys| ensures keys[i] in m && '=' !in keys[i] {
      assert keys[i] in keys;
    }
    FlattenReadsBack(keys, m, f);
  }

  /** Every flag read back names a key of the map, with that key's text. */
  lemma {:induction false} ExpectedFromMap(keys: seq<string>, m: map<string, JVal>, f: Formats, fl: Flag)
    requires forall i :: 0 <= i < |keys| ==> keys[i] in m
    requires fl in Expected(keys, m, f)
    ensures fl.name in keys && fl.name in m && FlagText(m[fl.name], f) == Some(fl.text)
  {
    if keys != [] {
      var rest := Expected(keys[1..], m, f);
      if fl in rest {
        ExpectedFromMap(keys[1..], m, f, fl);
      }
    }
  }
}
