/**
 * internal/core/repository/repository.go: a map from path-like keys to
 * values whose mutating operations check the key first (`ValidatePath`) and
 * report each failure with its own error.
 */
module Repository {
  import opened Wrappers

  /** `ErrNotFound`, `ErrKeyExists`, `ErrEmptyPath` and `ErrBadChar`, with what each message names. */
  datatype RepoError =
    | NotFound(key: string)
    | KeyExists(key: string)
    | EmptyPath
    | BadChar(path: string, c: char)

  /** The `invalid` constant of `ValidatePath`. */
  const InvalidChars: string := "<>\"|?*/"

  /** The characters a key may not contain: `<`, `>`, `"`, `|`, `?`, `*` and `/` (the nesting separator). */
  predicate IsInvalidChar(c: char): (r: bool)
    ensures r <==> c in InvalidChars
  {
    c == '<' || c == '>' || c == '"' || c == '|' || c == '?' || c == '*' || c == '/'
  }

  /** The keys `ValidatePath` accepts. */
  predicate ValidKey(p: string) {
    p != [] && forall i :: 0 <= i < |p| ==> !IsInvalidChar(p[i])
  }

  /** The position of the first forbidden character, scanning from the left. */
  function FirstInvalid(p: string): (r: Option<nat>)
    ensures r.None? <==> forall i :: 0 <= i < |p| ==> !IsInvalidChar(p[i])
    ensures r.Some? ==> r.value < |p| && IsInvalidChar(p[r.value])
    ensures r.Some? ==> forall i :: 0 <= i < r.value ==> !IsInvalidChar(p[i])
  {
    if p == [] then None
    else if IsInvalidChar(p[0]) then Some(0)
    else
      match FirstInvalid(p[1..])
      case None => None
      case Some(j) => Some(j + 1)
  }

  /**
   * What `ValidatePath` returns: the empty key fails with `ErrEmptyPath`, a
   * key with a forbidden character fails with `ErrBadChar` naming the first
   * one, and every other key passes.
   */
  function PathCheck(p: string): (r: Outcome<RepoError>)
    ensures r == Pass <==> ValidKey(p)
    ensures r == Fail(EmptyPath) <==> p == []
    ensures r.Fail? && p != [] ==>
      exists i :: 0 <= i < |p| && IsInvalidChar(p[i]) && r.error == BadChar(p, p[i])
        && forall j :: 0 <= j < i ==> !IsInvalidChar(p[j])
  {
    if p == [] then Fail(EmptyPath)
    else
      match FirstInvalid(p)
      case None => Pass
      case Some(i) => Fail(BadChar(p, p[i]))
  }

  /** `ValidatePath`: an early-exit scan over the key's characters. */
  method ValidatePath(p: string) returns (err: Outcome<RepoError>)
    ensures err == PathCheck(p)
  {
    if p == "" {
      return Fail(EmptyPath);
    }
    var i := 0;
    while i < |p|
      invariant 0 <= i <= |p|
      invariant forall j :: 0 <= j < i ==> !IsInvalidChar(p[j])
    {
      if IsInvalidChar(p[i]) {
        FirstInvalidAt(p, i);
        return Fail(BadChar(p, p[i]));
      }
      i := i + 1;
    }
    return Pass;
  }

  /** The first forbidden character, given that it is the first. */
  lemma FirstInvalidAt(p: string, i: nat)
    requires i < |p| && IsInvalidChar(p[i])
    requires forall j :: 0 <= j < i ==> !IsInvalidChar(p[j])
    ensures FirstInvalid(p) == Some(i)
  {
  }

  /** The repository: the Go map type the methods receive. */
  class Repository<T> {
    var entries: map<string, T>

    /** Every stored key is one `ValidatePath` accepts. */
    ghost predicate Valid()
      reads this
    {
      forall k :: k in entries ==> ValidKey(k)
    }

    /** `New`: an empty repository. */
    constructor ()
      ensures entries == map[] && Valid()
    {
      entries := map[];
    }

    /** `Get`: the stored value, or `ErrNotFound`; never changes the map. */
    method Get(key: string) returns (r: Result<T, RepoError>)
      ensures key in entries ==> r == Ok(entries[key])
      ensures key !in entries ==> r == Err(NotFound(key))
    {
      if key in entries {
        return Ok(entries[key]);
      } else {
        return Err(NotFound(key));
      }
    }

    /**
     * `Put`: a valid key is bound to the value, replacing any old value; an
     * invalid key is refused with the validation error and nothing changes.
     */
    method Put(key: string, value: T) returns (r: Result<T, RepoError>)
      modifies this
      ensures ValidKey(key) ==> r == Ok(value) && entries == old(entries)[key := value]
      ensures !ValidKey(key) ==> r == Err(PathCheck(key).error) && entries == old(entries)
      ensures old(Valid()) ==> Valid()
    {
      var err := ValidatePath(key);
      if err == Pass {
        entries := entries[key := value];
        return Ok(value);
      } else {
        return Err(err.error);
      }
    }

    /**
     * `Create`: an existing key is refused with `ErrKeyExists` and nothing
     * changes; a new key is handled exactly as by `Put`.
     */
    method Create(key: string, value: T) returns (r: Result<T, RepoError>)
      modifies this
      ensures key in old(entries) ==> r == Err(KeyExists(key)) && entries == old(entries)
      ensures key !in old(entries) && ValidKey(key) ==> r == Ok(value) && entries == old(entries)[key := value]
      ensures key !in old(entries) && !ValidKey(key) ==> r == Err(PathCheck(key).error) && entries == old(entries)
      ensures old(Valid()) ==> Valid()
    {
      if key in entries {
        return Err(KeyExists(key));
      } else {
        r := Put(key, value);
      }
    }

    /**
     * `Delete`: a present key is removed, an absent one is refused with
     * `ErrNotFound` and nothing changes.
     */
    method Delete(key: string) returns (r: Outcome<RepoError>)
      modifies this
      ensures key in old(entries) ==> r == Pass && entries == old(entries) - {key}
      ensures key in old(entries) ==> |entries| == |old(entries)| - 1
      ensures key !in old(entries) ==> r == Fail(NotFound(key)) && entries == old(entries)
      ensures old(Valid()) ==> Valid()
    {
      if key in entries {
        RemoveShrinks(entries, key);
        entries := entries - {key};
        return Pass;
      } else {
        return Fail(NotFound(key));
      }
    }
  }

  /** Removing a present key shrinks the map by exactly one. */
  lemma RemoveShrinks<T>(m: map<string, T>, key: string)
    requires key in m
    ensures |m - {key}| == |m| - 1
  {
  }

  /**
   * The sequence of calls in repository_test.go on a fresh repository of
   * integers, with the size and the results it checks along the way.
   */
  method RepositoryScenario() returns (sizes: seq<nat>, values: seq<Result<int, RepoError>>, deletes: seq<Outcome<RepoError>>)
    ensures sizes == [0, 1, 1, 0, 0]
    ensures values == [Ok(1), Ok(1), Err(KeyExists("key1")), Ok(1), Err(NotFound("key1")), Ok(1), Ok(2)]
    ensures deletes == [Pass, Fail(NotFound("key1"))]
  {
    assert ValidKey("key1");
    var repo := new Repository<int>();
    sizes := [|repo.entries|];
    var v := repo.Create("key1", 1);
    sizes := sizes + [|repo.entries|];
    values := [v];
    v := repo.Get("key1");
    values := values + [v];
    v := repo.Create("key1", 2);
    sizes := sizes + [|repo.entries|];
    values := values + [v];
    v := repo.Get("key1");
    values := values + [v];
    var d := repo.Delete("key1");
    sizes := sizes + [|repo.entries|];
    deletes := [d];
    v := repo.Get("key1");
    values := values + [v];
    d := repo.Delete("key1");
    sizes := sizes + [|repo.entries|];
    deletes := deletes + [d];
    v := repo.Put("key1", 1);
    v := repo.Get("key1");
    values := values + [v];
    v := repo.Put("key1", 2);
    v := repo.Get("key1");
    values := values + [v];
  }
}
