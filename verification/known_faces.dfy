/** The enrolled-faces store: a Python dict from user name to reference
    embedding, which keeps its keys in insertion order. */
module KnownFaces {
  import opened Optional
  import opened Sequences

  /** A face descriptor; its numbers are never inspected by the model. */
  type Embedding = seq<real>

  datatype Entry = Entry(name: string, emb: Embedding)

  /** The dict's items in iteration order. */
  type Store = seq<Entry>

  /** A dict has each key once. */
  ghost predicate UniqueNames(s: Store)
  {
    forall i, j :: 0 <= i < j < |s| ==> s[i].name != s[j].name
  }

  /** Position of `name` among the keys. */
  function IndexOf(s: Store, name: string): (r: Option<nat>)
    ensures r.Some? ==> r.value < |s| && s[r.value].name == name
    ensures r.None? <==> forall j :: 0 <= j < |s| ==> s[j].name != name
  {
    FirstIndex(s, (e: Entry) => e.name == name)
  }

  /** `known_faces[name] = emb`: an existing key keeps its place and gets the
      new value, a new key goes last. */
  function Put(s: Store, name: string, emb: Embedding): (r: Store)
    ensures UniqueNames(s) ==> UniqueNames(r)
    ensures IndexOf(s, name).None? ==> r == s + [Entry(name, emb)]
    ensures IndexOf(s, name).Some? ==>
              |r| == |s| &&
              forall i :: 0 <= i < |s| ==> r[i].name == s[i].name
    ensures IndexOf(s, name).Some? ==>
              forall i :: 0 <= i < |s| && s[i].name != name ==> r[i] == s[i]
  {
    match IndexOf(s, name)
    case None => s + [Entry(name, emb)]
    case Some(i) => s[i := Entry(name, emb)]
  }

  /** The set of keys. */
  function Names(s: Store): set<string>
  {
    set i | 0 <= i < |s| :: s[i].name
  }

  /** The dict as a mathematical map. */
  function AsMap(s: Store): (m: map<string, Embedding>)
    ensures m.Keys == Names(s)
    decreases |s|
  {
    if |s| == 0 then map[]
    else
      var init := s[..|s| - 1];
      var last := s[|s| - 1];
      assert Names(s) == Names(init) + {last.name} by {
        assert forall i :: 0 <= i < |init| ==> init[i] == s[i];
      }
      assert forall i :: 0 <= i < |init| ==> init[i] == s[i];
      AsMap(init)[last.name := last.emb]
  }

  /** Assigning one key updates exactly that key in the map view: every other
      user's reference embedding is unchanged and an existing entry for the
      name is overwritten. */
  lemma PutAsMap(s: Store, name: string, emb: Embedding)
    requires UniqueNames(s)
    ensures AsMap(Put(s, name, emb)) == AsMap(s)[name := emb]
  {
    match IndexOf(s, name)
    case None =>
      var r := s + [Entry(name, emb)];
      assert r[..|r| - 1] == s;
    case Some(k) =>
      ReplaceAsMap(s, k, emb);
  }

  /** Replacing the value of an existing key, seen through the map view. */
  lemma {:induction false} ReplaceAsMap(s: Store, k: nat, emb: Embedding)
    requires UniqueNames(s)
    requires k < |s|
    ensures AsMap(s[k := Entry(s[k].name, emb)]) == AsMap(s)[s[k].name := emb]
    decreases |s|
  {
    var name := s[k].name;
    var r := s[k := Entry(name, emb)];
    var init := s[..|s| - 1];
    var last := s[|s| - 1];
    if k == |s| - 1 {
      assert r[..|r| - 1] == init;
    } else {
      var rinit := init[k := Entry(name, emb)];
      var mi := AsMap(init);
      assert r[..|r| - 1] == rinit;
      assert r[|r| - 1] == last;
      assert AsMap(r) == AsMap(rinit)[last.name := last.emb];
      assert AsMap(s) == mi[last.name := last.emb];
      assert UniqueNames(init) by {
        assert forall i :: 0 <= i < |init| ==> init[i] == s[i];
      }
      assert init[k] == s[k];
      ReplaceAsMap(init, k, emb);
      assert last.name != name;
      UpdatesCommute(mi, name, emb, last.name, last.emb);
    }
  }

  /** Updates at two different keys commute. */
  lemma UpdatesCommute(m: map<string, Embedding>, a: string, x: Embedding, b: string, y: Embedding)
    requires a != b
    ensures m[a := x][b := y] == m[b := y][a := x]
  {
  }

  /** In the map view every key holds the value stored at its position. */
  lemma {:induction false} AsMapLookup(s: Store, i: nat)
    requires UniqueNames(s)
    requires i < |s|
    ensures s[i].name in AsMap(s) && AsMap(s)[s[i].name] == s[i].emb
    decreases |s|
  {
    var init := s[..|s| - 1];
    if i < |s| - 1 {
      assert UniqueNames(init) by {
        assert forall j :: 0 <= j < |init| ==> init[j] == s[j];
      }
      assert init[i] == s[i];
      AsMapLookup(init, i);
    }
  }
}
