/** `transform_registries`: for each requested registry, every JSON file of
    the registry's directory under `minecraft/`, gathered into one nested
    map keyed by namespaced names. The file system is an input: what each
    registry directory lists, in enumeration order, with each regular file's
    parsed contents. */
module RegistryTransform {
  import opened Wrappers
  import opened JsonValues

  /** A directory entry: a regular file with its file stem and its contents
      (`None` when it cannot be read or is not valid JSON), or anything
      else, such as a subdirectory. */
  datatype DirEntry = File(stem: string, contents: Option<Json>) | NonFile(path: string)

  /** The registry directories: registry name to the listing of
      `minecraft/{name}`; a name without a listing has no readable directory. */
  type Tree = map<string, seq<DirEntry>>

  datatype RegistryError = MissingDirectory | InvalidFile

  const Namespace: string := "minecraft:"

  /** `format!("minecraft:{}", name)`; the name can be read back from it. */
  function Namespaced(name: string): (key: string)
    ensures |key| == |Namespace| + |name| && key[|Namespace|..] == name
  {
    Namespace + name
  }

  /** Distinct names never share a key. */
  lemma NamespacedInjective(a: string, b: string)
    ensures Namespaced(a) == Namespaced(b) ==> a == b
  {
  }

  predicate Readable(e: DirEntry) {
    e.NonFile? || e.contents.Some?
  }

  /** Entry `e` is a file stored under key `k`. */
  predicate StoresAt(e: DirEntry, k: string) {
    e.File? && Namespaced(e.stem) == k
  }

  /** The keys of all regular files in a listing. */
  function FileKeys(entries: seq<DirEntry>): set<string> {
    set e | e in entries && e.File? :: Namespaced(e.stem)
  }

  /** Entry `i` is the last file of the listing stored under `k`. */
  predicate LastStoredAt(entries: seq<DirEntry>, k: string, i: int) {
    && 0 <= i < |entries|
    && StoresAt(entries[i], k)
    && forall j :: i < j < |entries| ==> !StoresAt(entries[j], k)
  }

  /** One pass of the loop over a registry's entries: a file is inserted
      under its key, replacing any earlier value; a non-file is skipped; an
      unreadable file ends the transform. */
  function AddEntry(acc: Result<map<string, Json>, RegistryError>, e: DirEntry): Result<map<string, Json>, RegistryError> {
    match acc
    case Err(x) => Err(x)
    case Ok(m) =>
      match e
      case NonFile(_) => Ok(m)
      case File(stem, contents) =>
        match contents
        case None => Err(InvalidFile)
        case Some(v) => Ok(m[Namespaced(stem) := v])
  }

  /** One registry: the directory's entries in enumeration order, each file
      inserted under its key; non-files are skipped; an unreadable file
      fails it all. */
  function RegistryEntries(entries: seq<DirEntry>): (r: Result<map<string, Json>, RegistryError>)
    ensures r.Ok? <==> forall i :: 0 <= i < |entries| ==> Readable(entries[i])
    ensures r.Err? ==> r.error == InvalidFile
    decreases |entries|
  {
    if |entries| == 0 then Ok(map[])
    else
      var prefix := entries[..|entries| - 1];
      assert forall i :: 0 <= i < |prefix| ==> prefix[i] == entries[i];
      AddEntry(RegistryEntries(prefix), entries[|entries| - 1])
  }

  /** What a successful registry holds: one key per file stem, and for each
      key the contents of the last file, in enumeration order, with that
      stem; so a later file with the same stem replaces an earlier one. */
  lemma {:induction false} RegistryEntriesContents(entries: seq<DirEntry>)
    requires RegistryEntries(entries).Ok?
    ensures RegistryEntries(entries).value.Keys == FileKeys(entries)
    ensures var m := RegistryEntries(entries).value;
            forall k :: k in m ==> exists i :: LastStoredAt(entries, k, i) && entries[i].contents == Some(m[k])
    decreases |entries|
  {
    if |entries| > 0 {
      var prefix := entries[..|entries| - 1];
      var last := entries[|entries| - 1];
      assert entries == prefix + [last];
      assert forall i :: 0 <= i < |prefix| ==> prefix[i] == entries[i];
      RegistryEntriesContents(prefix);
      FileKeysSnoc(prefix, last);
      AddReadable(prefix, last, RegistryEntries(prefix).value);
    }
  }

  lemma FileKeysSnoc(prefix: seq<DirEntry>, last: DirEntry)
    ensures FileKeys(prefix + [last]) == FileKeys(prefix) + (if last.File? then {Namespaced(last.stem)} else {})
  {
    var entries := prefix + [last];
    forall e | e in entries ensures e in prefix || e == last { }
  }

  lemma AddReadable(prefix: seq<DirEntry>, last: DirEntry, m: map<string, Json>)
    requires Readable(last)
    requires forall k :: k in m ==> exists i :: LastStoredAt(prefix, k, i) && prefix[i].contents == Some(m[k])
    ensures var m' := AddEntry(Ok(m), last).value;
            forall k :: k in m' ==> exists i :: LastStoredAt(prefix + [last], k, i) && (prefix + [last])[i].contents == Some(m'[k])
  {
    var entries := prefix + [last];
    var m' := AddEntry(Ok(m), last).value;
    forall k | k in m'
      ensures exists i :: LastStoredAt(entries, k, i) && entries[i].contents == Some(m'[k])
    {
      if StoresAt(last, k) {
        assert LastStoredAt(entries, k, |prefix|);
      } else {
        assert k in m;
        var i :| LastStoredAt(prefix, k, i) && prefix[i].contents == Some(m[k]);
        assert entries[i] == prefix[i];
        assert LastStoredAt(entries, k, i);
      }
    }
  }

  /** One pass of the loop over the requested registries: the registry's
      directory is read and its map inserted under the namespaced name. */
  function AddRegistry(tree: Tree, acc: Result<map<string, map<string, Json>>, RegistryError>, name: string)
    : Result<map<string, map<string, Json>>, RegistryError>
  {
    match acc
    case Err(e) => Err(e)
    case Ok(m) =>
      if name !in tree then Err(MissingDirectory)
      else
        match RegistryEntries(tree[name])
        case Err(e) => Err(e)
        case Ok(entries) => Ok(m[Namespaced(name) := entries])
  }

  /** All requested registries, in the order given; a registry without a
      readable directory, or with an unreadable file, fails the whole call,
      whatever earlier registries produced. */
  function TransformRegistries(tree: Tree, registries: seq<string>): (r: Result<map<string, map<string, Json>>, RegistryError>)
    ensures r.Ok? <==> forall i :: 0 <= i < |registries| ==>
                         registries[i] in tree && RegistryEntries(tree[registries[i]]).Ok?
    decreases |registries|
  {
    if |registries| == 0 then Ok(map[])
    else
      var prefix := registries[..|registries| - 1];
      assert forall i :: 0 <= i < |prefix| ==> prefix[i] == registries[i];
      AddRegistry(tree, TransformRegistries(tree, prefix), registries[|registries| - 1])
  }

  /** Registry `name` cannot be collected: its directory is missing, or a
      file in it is unreadable. */
  predicate RegistryFails(tree: Tree, name: string) {
    !(name in tree && RegistryEntries(tree[name]).Ok?)
  }

  /** Registry `i` is the first, in the order requested, that cannot be collected. */
  predicate FirstFailingRegistry(tree: Tree, registries: seq<string>, i: int) {
    && 0 <= i < |registries|
    && RegistryFails(tree, registries[i])
    && forall j :: 0 <= j < i ==> !RegistryFails(tree, registries[j])
  }

  /** A failed transform reports the first registry that cannot be
      collected: `MissingDirectory` exactly when its directory is missing,
      `InvalidFile` otherwise. */
  lemma {:induction false} TransformRegistriesError(tree: Tree, registries: seq<string>)
    requires TransformRegistries(tree, registries).Err?
    ensures exists i :: FirstFailingRegistry(tree, registries, i)
                        && (TransformRegistries(tree, registries).error == MissingDirectory <==> registries[i] !in tree)
                        && (TransformRegistries(tree, registries).error == InvalidFile <==> registries[i] in tree)
    decreases |registries|
  {
    var r := TransformRegistries(tree, registries);
    var prefix := registries[..|registries| - 1];
    var name := registries[|registries| - 1];
    assert forall j :: 0 <= j < |prefix| ==> prefix[j] == registries[j];
    if TransformRegistries(tree, prefix).Err? {
      TransformRegistriesError(tree, prefix);
      var i :| FirstFailingRegistry(tree, prefix, i)
               && (TransformRegistries(tree, prefix).error == MissingDirectory <==> prefix[i] !in tree)
               && (TransformRegistries(tree, prefix).error == InvalidFile <==> prefix[i] in tree);
      assert FirstFailingRegistry(tree, registries, i);
    } else {
      assert RegistryFails(tree, name);
      assert FirstFailingRegistry(tree, registries, |registries| - 1);
    }
  }

  /** What a successful transform holds: exactly one key per requested
      registry name, each holding that registry's entries. */
  lemma {:induction false} TransformRegistriesContents(tree: Tree, registries: seq<string>)
    requires TransformRegistries(tree, registries).Ok?
    ensures TransformRegistries(tree, registries).value.Keys == set n | n in registries :: Namespaced(n)
    ensures forall n :: n in registries ==>
              (n in tree && TransformRegistries(tree, registries).value[Namespaced(n)] == RegistryEntries(tree[n]).value)
  {
    TransformRegistriesKeys(tree, registries);
    TransformRegistriesValues(tree, registries);
  }

  lemma {:induction false} TransformRegistriesKeys(tree: Tree, registries: seq<string>)
    requires TransformRegistries(tree, registries).Ok?
    ensures TransformRegistries(tree, registries).value.Keys == set n | n in registries :: Namespaced(n)
    decreases |registries|
  {
    if |registries| > 0 {
      var prefix := registries[..|registries| - 1];
      var name := registries[|registries| - 1];
      assert registries == prefix + [name];
      assert forall i :: 0 <= i < |prefix| ==> prefix[i] == registries[i];
      TransformRegistriesKeys(tree, prefix);
      assert (set n | n in registries :: Namespaced(n)) == (set n | n in prefix :: Namespaced(n)) + {Namespaced(name)};
    }
  }

  lemma {:induction false} TransformRegistriesValues(tree: Tree, registries: seq<string>)
    requires TransformRegistries(tree, registries).Ok?
    ensures forall n :: n in registries ==>
              (&& n in tree && Namespaced(n) in TransformRegistries(tree, registries).value
               && TransformRegistries(tree, registries).value[Namespaced(n)] == RegistryEntries(tree[n]).value)
    decreases |registries|
  {
    if |registries| > 0 {
      var prefix := registries[..|registries| - 1];
      var name := registries[|registries| - 1];
      assert forall i :: 0 <= i < |prefix| ==> prefix[i] == registries[i];
      TransformRegistriesValues(tree, prefix);
      var m := TransformRegistries(tree, prefix).value;
      var result := TransformRegistries(tree, registries).value;
      assert result == m[Namespaced(name) := RegistryEntries(tree[name]).value];
      forall n | n in registries
        ensures n in tree && Namespaced(n) in result && result[Namespaced(n)] == RegistryEntries(tree[n]).value
      {
        if n != name {
          assert n in prefix by {
            var i :| 0 <= i < |registries| && registries[i] == n;
            assert i < |prefix|;
          }
          NamespacedInjective(n, name);
        }
      }
    }
  }

  /** Non-file entries contribute nothing and never fail, wherever they
      appear in the listing. */
  lemma {:induction false} NonFileSkipped(a: seq<DirEntry>, p: string, b: seq<DirEntry>)
    ensures RegistryEntries(a + [NonFile(p)] + b) == RegistryEntries(a + b)
    decreases |b|
  {
    var x, y := a + [NonFile(p)] + b, a + b;
    if |b| == 0 {
      assert x[..|x| - 1] == a && y == a;
    } else {
      var b' := b[..|b| - 1];
      NonFileSkipped(a, p, b');
      assert x[..|x| - 1] == a + [NonFile(p)] + b';
      assert y[..|y| - 1] == a + b';
      assert x[|x| - 1] == y[|y| - 1];
    }
  }

  /** Of two files with the same stem, the one enumerated later supplies the value. */
  lemma LaterFileWins(entries: seq<DirEntry>, stem: string, v: Json)
    requires |entries| > 0 && entries[|entries| - 1] == File(stem, Some(v))
    requires RegistryEntries(entries).Ok?
    ensures RegistryEntries(entries).value[Namespaced(stem)] == v
  {
  }

  /** A registry named twice yields one outer key, and the repeat changes nothing. */
  lemma RepeatedRegistryChangesNothing(tree: Tree, registries: seq<string>, name: string)
    requires name in registries
    ensures TransformRegistries(tree, registries + [name]) == TransformRegistries(tree, registries)
  {
    var rs := registries + [name];
    assert rs[..|rs| - 1] == registries;
    var r := TransformRegistries(tree, registries);
    if r.Ok? {
      TransformRegistriesContents(tree, registries);
      assert r.value[Namespaced(name) := RegistryEntries(tree[name]).value] == r.value;
    }
  }

  /** `minecraft/item/` holding `stick.json` and `diamond.json`. */
  lemma ItemExample(stick: Json, diamond: Json)
    ensures var tree := map["item" := [File("stick", Some(stick)), File("diamond", Some(diamond))]];
            TransformRegistries(tree, ["item"])
            == Ok(map["minecraft:item" := map["minecraft:stick" := stick, "minecraft:diamond" := diamond]])
  {
    var listing := [File("stick", Some(stick)), File("diamond", Some(diamond))];
    var tree := map["item" := listing];
    assert listing[..1] == [listing[0]] && [listing[0]][..0] == [];
    assert RegistryEntries([listing[0]]) == AddEntry(RegistryEntries([]), listing[0]);
    assert RegistryEntries(listing) == AddEntry(RegistryEntries([listing[0]]), listing[1]);
    assert ["item"][..0] == [];
    assert TransformRegistries(tree, ["item"]) == AddRegistry(tree, TransformRegistries(tree, []), "item");
    assert Namespaced("stick") == "minecraft:stick" && Namespaced("diamond") == "minecraft:diamond";
    assert Namespaced("item") == "minecraft:item";
    assert RegistryEntries(listing).value == map["minecraft:stick" := stick, "minecraft:diamond" := diamond];
  }
}
