/**
 * The value-level parts of stickynotes/backend.go: the fields `NewNote`
 * builds from a JSON object, the resolution of `GetCategoryProperty`, the
 * category tables `Loads` and `Merge` take from a document, the `~`
 * expansion of `Save` and `Open`, and the splice of `Note.Delete`.
 * JSON documents are `Values.Value`s; decoding them is not modelled.
 */
module Backend {
  import opened Wrappers
  import opened Values

  // ---------------------------------------------------------------------------
  // NewNote

  /** The fields of a `Note` that `NewNote` sets; `LastModified` is not modelled. */
  datatype NoteFields = NoteFields(uuid: string, body: string, properties: Table, category: string)

  /** `content["cat"]` when it is a non-empty string. */
  function ContentCategory(content: Option<Table>): string {
    if content.Some? then
      match GetString(content.value, "cat")
      case Some(c) => c
      case None => ""
    else ""
  }

  /** `content["uuid"]` when it is a string. */
  function ContentUuid(content: Option<Table>): string {
    if content.Some? then GetString(content.value, "uuid").GetOr("") else ""
  }

  /**
   * `NewNote`: `content` is `nil` as `None`; `freshId` is the value
   * `uuid.New()` would produce.
   */
  function NewNoteFields(content: Option<Table>, category: string, freshId: string): (f: NoteFields)
    requires freshId != ""
    ensures f.uuid != ""
    ensures f.uuid == (if ContentUuid(content) != "" then ContentUuid(content) else freshId)
    ensures f.category == (if ContentCategory(content) != "" then ContentCategory(content) else category)
    ensures content.None? ==> f == NoteFields(freshId, "", map[], category)
    ensures content.Some? && Get(content.value, "properties").Object? ==> f.properties == Get(content.value, "properties").fields
    ensures content.Some? && !Get(content.value, "properties").Object? ==> f.properties == map[]
  {
    var body := if content.Some? then GetString(content.value, "body").GetOr("") else "";
    var props := if content.Some? && Get(content.value, "properties").Object? then Get(content.value, "properties").fields else map[];
    var cat := ContentCategory(content);
    var uuid := ContentUuid(content);
    NoteFields(if uuid == "" then freshId else uuid, body, props, if cat == "" then category else cat)
  }

  /** A content object carrying a string UUID keeps it; the fresh value is used only otherwise. */
  lemma NewNoteKeepsStoredUuid(content: Table, category: string, freshId: string, u: string)
    requires freshId != "" && u != ""
    requires Get(content, "uuid") == Str(u)
    ensures NewNoteFields(Some(content), category, freshId).uuid == u
  {
  }

  /** A stored empty category, or a category that is not a string, gives the parameter. */
  lemma NewNoteCategoryFallback(content: Table, category: string, freshId: string)
    requires freshId != ""
    requires !Get(content, "cat").Str? || Get(content, "cat") == Str("")
    ensures NewNoteFields(Some(content), category, freshId).category == category
  {
  }

  // ---------------------------------------------------------------------------
  // GetCategoryProperty / HasCategory

  /** `HasCategory` */
  predicate HasCategory(categories: map<string, Table>, cat: string) {
    cat in categories
  }

  /** The category `GetCategoryProperty` reads: an empty one becomes a non-empty `default_cat`. */
  function EffectiveCategory(properties: Table, cat: string): (c: string)
    ensures cat != "" ==> c == cat
    ensures cat == "" && GetString(properties, "default_cat").Some? ==> c == GetString(properties, "default_cat").value
    ensures cat == "" && GetString(properties, "default_cat").None? ==> c == ""
  {
    if cat == "" then GetString(properties, "default_cat").GetOr("") else cat
  }

  /** `GetCategoryProperty`: `Nil` is Go's `nil`. */
  function CategoryProperty(properties: Table, categories: map<string, Table>, cat: string, prop: string): Value {
    var c := EffectiveCategory(properties, cat);
    if c != "" && HasCategory(categories, c) && prop in categories[c] then categories[c][prop]
    else Get(FallbackProperties, prop)
  }

  /**
   * The three steps of `GetCategoryProperty`: the category's own value when
   * it exists and has the property; otherwise the fallback value, or `Nil`.
   * An existing category lacking the property does not consult `default_cat`.
   */
  lemma CategoryPropertyResolution(properties: Table, categories: map<string, Table>, cat: string, prop: string)
    ensures var c := EffectiveCategory(properties, cat);
      && (c != "" && c in categories && prop in categories[c] ==> CategoryProperty(properties, categories, cat, prop) == categories[c][prop])
      && (!(c != "" && c in categories && prop in categories[c]) ==>
            CategoryProperty(properties, categories, cat, prop) == (if prop in FallbackProperties then FallbackProperties[prop] else Nil))
      && (cat != "" && cat in categories && prop !in categories[cat] ==>
            CategoryProperty(properties, categories, cat, prop) == Get(FallbackProperties, prop))
  {
  }

  /** For a note without a category, the lookup is the lookup of `default_cat`. */
  lemma EmptyCategoryUsesDefault(properties: Table, categories: map<string, Table>, prop: string, d: string)
    requires Get(properties, "default_cat") == Str(d) && d != ""
    ensures CategoryProperty(properties, categories, "", prop) == CategoryProperty(properties, categories, d, prop)
  {
  }

  /** Only the four fallback keys have a value without a category entry. */
  lemma UnknownPropertyIsNil(properties: Table, categories: map<string, Table>, cat: string, prop: string)
    requires prop !in {"bgcolor_hsv", "textcolor", "font", "shadow"}
    requires !(EffectiveCategory(properties, cat) in categories && prop in categories[EffectiveCategory(properties, cat)])
    ensures CategoryProperty(properties, categories, cat, prop) == Nil
  {
  }

  // ---------------------------------------------------------------------------
  // The category tables of Loads and Merge

  /** The entries of an imported `categories` object that are themselves objects. */
  function ImportedCategories(v: Value): (r: map<string, Table>)
    ensures v.Object? ==> forall k :: k in r <==> k in v.fields && v.fields[k].Object?
    ensures !v.Object? ==> r == map[]
    ensures forall k :: k in r ==> v.Object? && v.fields[k] == Object(r[k])
  {
    if v.Object? then map k | k in v.fields && v.fields[k].Object? :: v.fields[k].fields else map[]
  }

  /** The category loop of `Merge`: imported objects overwrite entries with the same key. */
  function MergeCategories(categories: map<string, Table>, doc: Table): (r: map<string, Table>)
    ensures forall k :: k in r <==> k in categories || k in ImportedCategories(Get(doc, "categories"))
    ensures forall k :: k in ImportedCategories(Get(doc, "categories")) ==> r[k] == ImportedCategories(Get(doc, "categories"))[k]
    ensures forall k :: k in categories && k !in ImportedCategories(Get(doc, "categories")) ==> r[k] == categories[k]
  {
    categories + ImportedCategories(Get(doc, "categories"))
  }

  /** `Loads` replaces the table when the document has a `categories` object, and keeps it otherwise. */
  function LoadCategories(categories: map<string, Table>, doc: Table): (r: map<string, Table>)
    ensures Get(doc, "categories").Object? ==> r == ImportedCategories(Get(doc, "categories"))
    ensures !Get(doc, "categories").Object? ==> r == categories
  {
    if Get(doc, "categories").Object? then ImportedCategories(Get(doc, "categories")) else categories
  }

  /** `Loads` replaces the note-set properties when the document has a `properties` object. */
  function LoadProperties(properties: Table, doc: Table): (r: Table)
    ensures Get(doc, "properties").Object? ==> r == Get(doc, "properties").fields
    ensures !Get(doc, "properties").Object? ==> r == properties
  {
    if Get(doc, "properties").Object? then Get(doc, "properties").fields else properties
  }

  /** The note objects of a document's `notes` array, in order; other entries are dropped. */
  function NoteObjects(doc: Table): (r: seq<Table>)
    ensures Get(doc, "notes").List? ==> |r| <= |Get(doc, "notes").items|
    ensures !Get(doc, "notes").List? ==> r == []
  {
    if Get(doc, "notes").List? then ObjectsOf(Get(doc, "notes").items) else []
  }

  function ObjectsOf(items: seq<Value>): (r: seq<Table>)
    ensures |r| <= |items|
    ensures forall t :: t in r <==> Object(t) in items
  {
    if items == [] then []
    else (if items[0].Object? then [items[0].fields] else []) + ObjectsOf(items[1..])
  }

  lemma {:induction false} ObjectsOfAllObjects(ts: seq<Table>)
    ensures ObjectsOf(seq(|ts|, i requires 0 <= i < |ts| => Object(ts[i]))) == ts
  {
    if ts != [] {
      var vs := seq(|ts|, i requires 0 <= i < |ts| => Object(ts[i]));
      assert vs[1..] == seq(|ts[1..]|, i requires 0 <= i < |ts[1..]| => Object(ts[1..][i]));
      ObjectsOfAllObjects(ts[1..]);
    }
  }

  // ---------------------------------------------------------------------------
  // Merge, on the notes' fields

  /** The `dnotes` index of `Merge`: every non-empty UUID to the last entry carrying it. */
  function IndexFields(fs: seq<NoteFields>): map<string, NoteFields>
    decreases |fs|
  {
    if fs == [] then map[]
    else
      var f := fs[|fs| - 1];
      if f.uuid != "" then IndexFields(fs[..|fs| - 1])[f.uuid := f] else IndexFields(fs[..|fs| - 1])
  }

  /** Every entry of a map is filed under its own UUID. */
  predicate OwnKeys(m: map<string, NoteFields>) {
    forall u :: u in m ==> m[u].uuid == u
  }

  /**
   * The index holds exactly the non-empty UUIDs of the list, each under its own
   * UUID, and an entry whose UUID no later entry repeats is the one filed.
   */
  lemma {:induction false} IndexFieldsSpec(fs: seq<NoteFields>)
    ensures forall u :: u in IndexFields(fs) <==> u != "" && exists i :: 0 <= i < |fs| && fs[i].uuid == u
    ensures OwnKeys(IndexFields(fs)) && forall u :: u in IndexFields(fs) ==> IndexFields(fs)[u] in fs
    ensures forall i :: 0 <= i < |fs| && fs[i].uuid != "" && (forall j :: i < j < |fs| ==> fs[j].uuid != fs[i].uuid) ==>
              IndexFields(fs)[fs[i].uuid] == fs[i]
    decreases |fs|
  {
    if fs != [] {
      var pre := fs[..|fs| - 1];
      IndexFieldsSpec(pre);
      forall u | u != "" && (exists i :: 0 <= i < |fs| && fs[i].uuid == u) ensures u in IndexFields(fs) {
        var i :| 0 <= i < |fs| && fs[i].uuid == u;
        if i < |pre| {
          assert pre[i].uuid == u;
        }
      }
      forall u | u in IndexFields(pre) ensures exists i :: 0 <= i < |fs| && fs[i].uuid == u {
        var i :| 0 <= i < |pre| && pre[i].uuid == u;
        assert fs[i] == pre[i];
      }
      forall i | 0 <= i < |fs| - 1 && fs[i].uuid != "" && (forall j :: i < j < |fs| ==> fs[j].uuid != fs[i].uuid)
        ensures IndexFields(fs)[fs[i].uuid] == fs[i]
      {
        assert pre[i] == fs[i];
        assert forall j :: i < j < |pre| ==> pre[j] == fs[j];
      }
      forall u | u in IndexFields(pre) ensures IndexFields(pre)[u] in fs {
        assert IndexFields(pre)[u] in pre;
      }
    }
  }

  /**
   * The patch `Merge` applies to a note it already has: `body`, `properties`
   * and `cat` replace the note's own when present with the right type (an
   * empty `cat` included); the UUID stays.
   */
  function PatchFields(f: NoteFields, t: Table): NoteFields {
    NoteFields(f.uuid,
               GetString(t, "body").GetOr(f.body),
               if Get(t, "properties").Object? then Get(t, "properties").fields else f.properties,
               GetString(t, "cat").GetOr(f.category))
  }

  /** Each field changes exactly when the object carries it with the right type. */
  lemma PatchOnlyTypedFields(f: NoteFields, t: Table)
    ensures var r := PatchFields(f, t);
      && r.uuid == f.uuid
      && (r.body == if "body" in t && t["body"].Str? then t["body"].s else f.body)
      && (r.properties == if "properties" in t && t["properties"].Object? then t["properties"].fields else f.properties)
      && (r.category == if "cat" in t && t["cat"].Str? then t["cat"].s else f.category)
  {
  }

  /** The UUID an imported note object is filed under: its own non-empty string `uuid`, else the fresh one. */
  function ObjectKey(t: Table, freshId: string): string {
    if ContentUuid(Some(t)) != "" then ContentUuid(Some(t)) else freshId
  }

  /** A new note made from an imported object carries the object's key. */
  lemma NewNoteHasObjectKey(t: Table, freshId: string)
    requires freshId != ""
    ensures NewNoteFields(Some(t), "", freshId).uuid == ObjectKey(t, freshId) != ""
  {
  }

  /**
   * One note object of `Merge`'s loop: an object whose UUID is filed patches
   * that entry; any other becomes a new note, filed under its UUID.
   */
  function MergeStep(m: map<string, NoteFields>, t: Table, freshId: string): map<string, NoteFields>
    requires freshId != ""
  {
    var u := ContentUuid(Some(t));
    if u != "" && u in m then m[u := PatchFields(m[u], t)]
    else
      var f := NewNoteFields(Some(t), "", freshId);
      m[f.uuid := f]
  }

  /** The fresh values `uuid.New()` yields, one per imported object. */
  predicate FreshIds(ids: seq<string>) {
    forall i :: 0 <= i < |ids| ==> ids[i] != ""
  }

  /** `Merge`'s loop over the imported note objects `objs`, the i-th drawing the fresh UUID `ids[i]` if it needs one. */
  function MergeFields(m: map<string, NoteFields>, objs: seq<Table>, ids: seq<string>): map<string, NoteFields>
    requires |ids| == |objs| && FreshIds(ids)
    decreases |objs|
  {
    if objs == [] then m
    else MergeStep(MergeFields(m, objs[..|objs| - 1], ids[..|objs| - 1]), objs[|objs| - 1], ids[|objs| - 1])
  }

  /** A non-empty import is one more step on the import without its last object. */
  lemma MergeFieldsLast(m: map<string, NoteFields>, objs: seq<Table>, ids: seq<string>)
    requires |ids| == |objs| && FreshIds(ids) && objs != []
    ensures var k := |objs| - 1; MergeFields(m, objs, ids) == MergeStep(MergeFields(m, objs[..k], ids[..k]), objs[k], ids[k])
  {
  }

  /** Merging one more object is one more step on what the earlier ones merged. */
  lemma MergeFieldsSnoc(m: map<string, NoteFields>, objs: seq<Table>, ids: seq<string>, i: nat)
    requires |ids| == |objs| && FreshIds(ids) && i < |objs|
    ensures MergeFields(m, objs[..i + 1], ids[..i + 1]) == MergeStep(MergeFields(m, objs[..i], ids[..i]), objs[i], ids[i])
  {
    assert objs[..i + 1][..i] == objs[..i] && ids[..i + 1][..i] == ids[..i];
  }

  /** The keys the imported objects are filed under. */
  function ImportedKeys(objs: seq<Table>, ids: seq<string>): set<string>
    requires |ids| == |objs|
  {
    set i | 0 <= i < |objs| :: ObjectKey(objs[i], ids[i])
  }

  /** The last object adds its key to those of the others. */
  lemma ImportedKeysSnoc(objs: seq<Table>, ids: seq<string>)
    requires |ids| == |objs| > 0
    ensures ImportedKeys(objs, ids) == ImportedKeys(objs[..|objs| - 1], ids[..|objs| - 1]) + {ObjectKey(objs[|objs| - 1], ids[|objs| - 1])}
  {
    var k := |objs| - 1;
    var po, pi := objs[..k], ids[..k];
    forall u | u in ImportedKeys(objs, ids) && u != ObjectKey(objs[k], ids[k]) ensures u in ImportedKeys(po, pi) {
      var i :| 0 <= i < |objs| && ObjectKey(objs[i], ids[i]) == u;
      assert ObjectKey(po[i], pi[i]) == u;
    }
    forall u | u in ImportedKeys(po, pi) ensures u in ImportedKeys(objs, ids) {
      var i :| 0 <= i < |po| && ObjectKey(po[i], pi[i]) == u;
      assert ObjectKey(objs[i], ids[i]) == u;
    }
  }

  /**
   * The merged index holds every UUID it had and the key of every imported
   * object, and nothing else; every entry stays filed under its own UUID, so
   * no two notes share a UUID.
   */
  lemma {:induction false} MergeFieldsKeys(m: map<string, NoteFields>, objs: seq<Table>, ids: seq<string>)
    requires |ids| == |objs| && FreshIds(ids) && OwnKeys(m)
    ensures MergeFields(m, objs, ids).Keys == m.Keys + ImportedKeys(objs, ids)
    ensures OwnKeys(MergeFields(m, objs, ids))
    decreases |objs|
  {
    if objs != [] {
      var k := |objs| - 1;
      MergeFieldsKeys(m, objs[..k], ids[..k]);
      ImportedKeysSnoc(objs, ids);
      MergeStepKeys(MergeFields(m, objs[..k], ids[..k]), objs[k], ids[k]);
    }
  }

  /** One step files exactly the object's key in addition, under its own UUID. */
  lemma MergeStepKeys(m: map<string, NoteFields>, t: Table, freshId: string)
    requires freshId != "" && OwnKeys(m)
    ensures MergeStep(m, t, freshId).Keys == m.Keys + {ObjectKey(t, freshId)}
    ensures OwnKeys(MergeStep(m, t, freshId))
  {
    NewNoteHasObjectKey(t, freshId);
  }

  /** An entry no imported object is filed under comes through unchanged. */
  lemma {:induction false} MergeFieldsUntouched(m: map<string, NoteFields>, objs: seq<Table>, ids: seq<string>, u: string)
    requires |ids| == |objs| && FreshIds(ids) && u in m
    requires forall i :: 0 <= i < |objs| ==> ObjectKey(objs[i], ids[i]) != u
    ensures u in MergeFields(m, objs, ids) && MergeFields(m, objs, ids)[u] == m[u]
    decreases |objs|
  {
    if objs != [] {
      var k := |objs| - 1;
      MergeFieldsUntouched(m, objs[..k], ids[..k], u);
      MergeStepOther(MergeFields(m, objs[..k], ids[..k]), objs[k], ids[k], u);
    }
  }

  /**
   * The object `t` with fresh value `id` is filed in `r`, merged from `m`:
   * a patch of the entry its own UUID names, or else the note `NewNote`
   * makes of it.
   */
  ghost predicate FiledAs(m: map<string, NoteFields>, r: map<string, NoteFields>, t: Table, id: string)
    requires id != ""
  {
    var u := ObjectKey(t, id);
    && u in r
    && (u in m && u == ContentUuid(Some(t)) ==> r[u] == PatchFields(m[u], t))
    && (u !in m ==> r[u] == NewNoteFields(Some(t), "", id))
  }

  /**
   * A note the set already has and exactly one imported object names gets
   * that object's patch; an imported key the set did not have, named once,
   * becomes the note `NewNote` makes of the object.
   */
  lemma {:induction false} MergeFieldsSingle(m: map<string, NoteFields>, objs: seq<Table>, ids: seq<string>, i: nat)
    requires |ids| == |objs| && FreshIds(ids) && i < |objs|
    requires forall j :: 0 <= j < |objs| && j != i ==> ObjectKey(objs[j], ids[j]) != ObjectKey(objs[i], ids[i])
    ensures FiledAs(m, MergeFields(m, objs, ids), objs[i], ids[i])
    decreases |objs|
  {
    var k := |objs| - 1;
    if i == k {
      MergeFieldsSingleLast(m, objs, ids);
    } else {
      var po, pi := objs[..k], ids[..k];
      assert forall j :: 0 <= j < k ==> po[j] == objs[j] && pi[j] == ids[j];
      MergeFieldsSingle(m, po, pi, i);
      FiledAsKept(m, objs, ids, i);
    }
  }

  /** An object filed by the earlier objects stays filed after a last object with another key. */
  lemma FiledAsKept(m: map<string, NoteFields>, objs: seq<Table>, ids: seq<string>, i: nat)
    requires |ids| == |objs| && FreshIds(ids) && i < |objs| - 1
    requires ObjectKey(objs[|objs| - 1], ids[|objs| - 1]) != ObjectKey(objs[i], ids[i])
    requires FiledAs(m, MergeFields(m, objs[..|objs| - 1], ids[..|objs| - 1]), objs[i], ids[i])
    ensures FiledAs(m, MergeFields(m, objs, ids), objs[i], ids[i])
  {
    var k := |objs| - 1;
    MergeFieldsLast(m, objs, ids);
    MergeStepOther(MergeFields(m, objs[..k], ids[..k]), objs[k], ids[k], ObjectKey(objs[i], ids[i]));
  }

  /** `MergeFieldsSingle` for the last object. */
  lemma MergeFieldsSingleLast(m: map<string, NoteFields>, objs: seq<Table>, ids: seq<string>)
    requires |ids| == |objs| && FreshIds(ids) && |objs| > 0
    requires forall j :: 0 <= j < |objs| - 1 ==> ObjectKey(objs[j], ids[j]) != ObjectKey(objs[|objs| - 1], ids[|objs| - 1])
    ensures FiledAs(m, MergeFields(m, objs, ids), objs[|objs| - 1], ids[|objs| - 1])
  {
    var k := |objs| - 1;
    var u := ObjectKey(objs[k], ids[k]);
    var po, pi := objs[..k], ids[..k];
    assert forall j :: 0 <= j < k ==> ObjectKey(po[j], pi[j]) != u;
    if u in m {
      MergeFieldsUntouched(m, po, pi, u);
    } else {
      MergeFieldsKeys2(m, po, pi, u);
    }
    MergeStepOwn(MergeFields(m, po, pi), objs[k], ids[k]);
  }

  /** A step files the object under its key: a patch of the entry its own UUID names, else a new note. */
  lemma MergeStepOwn(m: map<string, NoteFields>, t: Table, freshId: string)
    requires freshId != ""
    ensures var u := ObjectKey(t, freshId); var r := MergeStep(m, t, freshId);
      && u in r
      && (u in m && u == ContentUuid(Some(t)) ==> r[u] == PatchFields(m[u], t))
      && (u !in m ==> r[u] == NewNoteFields(Some(t), "", freshId))
  {
    NewNoteHasObjectKey(t, freshId);
  }

  /** A step leaves every key other than the object's as it was. */
  lemma MergeStepOther(m: map<string, NoteFields>, t: Table, freshId: string, u: string)
    requires freshId != "" && u != ObjectKey(t, freshId)
    ensures u in MergeStep(m, t, freshId) <==> u in m
    ensures u in m ==> MergeStep(m, t, freshId)[u] == m[u]
  {
    NewNoteHasObjectKey(t, freshId);
  }

  /** A key neither the index nor any imported object has is not in the merged index. */
  lemma {:induction false} MergeFieldsKeys2(m: map<string, NoteFields>, objs: seq<Table>, ids: seq<string>, u: string)
    requires |ids| == |objs| && FreshIds(ids) && u !in m
    requires forall i :: 0 <= i < |objs| ==> ObjectKey(objs[i], ids[i]) != u
    ensures u !in MergeFields(m, objs, ids)
    decreases |objs|
  {
    if objs != [] {
      var k := |objs| - 1;
      MergeFieldsKeys2(m, objs[..k], ids[..k], u);
      MergeStepOther(MergeFields(m, objs[..k], ids[..k]), objs[k], ids[k], u);
    }
  }

  // ---------------------------------------------------------------------------
  // Loads, on the notes' fields

  /** The notes `Loads` makes of the note objects `objs`, the i-th drawing the fresh UUID `ids[i]` if it needs one. */
  function LoadedFields(objs: seq<Table>, ids: seq<string>): (r: seq<NoteFields>)
    requires |ids| == |objs| && FreshIds(ids)
    ensures |r| == |objs|
    ensures forall i :: 0 <= i < |r| ==> r[i] == NewNoteFields(Some(objs[i]), "", ids[i])
  {
    seq(|objs|, i requires 0 <= i < |objs| => NewNoteFields(Some(objs[i]), "", ids[i]))
  }

  /**
   * Every loaded note has a UUID, the object's own when it has one; and two
   * objects with different string UUIDs give notes with different UUIDs.
   */
  lemma LoadedKeepsUuids(objs: seq<Table>, ids: seq<string>, i: nat, j: nat)
    requires |ids| == |objs| && FreshIds(ids) && i < |objs| && j < |objs|
    requires ContentUuid(Some(objs[i])) != "" && ContentUuid(Some(objs[j])) != ""
    ensures LoadedFields(objs, ids)[i].uuid == ContentUuid(Some(objs[i]))
    ensures ContentUuid(Some(objs[i])) != ContentUuid(Some(objs[j])) ==>
              LoadedFields(objs, ids)[i].uuid != LoadedFields(objs, ids)[j].uuid
  {
  }

  /** The values of a map, each once, in an order the map does not fix. */
  method MapValues<K, V>(d: map<K, V>) returns (vs: seq<V>)
    requires forall a, b :: a in d && b in d && a != b ==> d[a] != d[b]
    ensures |vs| == |d| && forall i, j :: 0 <= i < j < |vs| ==> vs[i] != vs[j]
    ensures forall v :: v in vs <==> exists k :: k in d && d[k] == v
  {
    vs := [];
    var keys := d.Keys;
    ghost var taken: seq<K> := [];
    while keys != {}
      invariant keys <= d.Keys && |vs| == |taken| && |keys| + |taken| == |d|
      invariant forall i :: 0 <= i < |taken| ==> taken[i] in d && taken[i] !in keys && vs[i] == d[taken[i]]
      invariant forall i, j :: 0 <= i < j < |taken| ==> taken[i] != taken[j]
      invariant forall k :: k in d && k !in keys ==> k in taken
      decreases |keys|
    {
      var k :| k in keys;
      vs := vs + [d[k]];
      taken := taken + [k];
      keys := keys - {k};
    }
  }

  // ---------------------------------------------------------------------------
  // The data file path

  /** What `path[0]` and `path[2:]` need: a non-empty path, and two characters when it starts with `~`. */
  predicate IndexablePath(path: string) {
    |path| > 0 && (path[0] == '~' ==> |path| >= 2)
  }

  /** `filepath.Join` of two elements, without `filepath.Clean`: an empty element is dropped. */
  function Join(a: string, b: string): (r: string)
    ensures a != "" && b != "" ==> r == a + "/" + b
    ensures a == "" ==> r == b
    ensures b == "" ==> r == a
  {
    if a == "" then b else if b == "" then a else a + "/" + b
  }

  /** The path `Save` writes and `Open` reads, for the home directory `home`. */
  function DataPath(path: string, home: string): string
    requires IndexablePath(path)
  {
    if path[0] == '~' then Join(home, path[2..]) else path
  }

  /**
   * Paths not starting with `~` are used as they are; `~` paths are the home
   * directory joined with everything after the second character, which is
   * dropped whatever it is.
   */
  lemma DataPathExpansion(path: string, home: string)
    requires IndexablePath(path)
    ensures path[0] != '~' ==> DataPath(path, home) == path
    ensures path[0] == '~' && home != "" && |path| > 2 ==> DataPath(path, home) == home + "/" + path[2..]
    ensures path[0] == '~' ==> forall c: char :: DataPath(['~', c] + path[2..], home) == DataPath(path, home)
  {
    if path[0] == '~' {
      forall c: char ensures DataPath(['~', c] + path[2..], home) == DataPath(path, home) {
        assert (['~', c] + path[2..])[2..] == path[2..];
      }
    }
  }

  /** The data file the program reads and writes. */
  const SettingsFile: string := "~/" + ".config/indicator-stickynotes"

  /** The data file of a debug build. */
  const DebugSettingsFile: string := "~/" + ".stickynotes"

  /** Both data files lie inside the home directory, under the names after `~/`. */
  lemma SettingsFilesExpand(home: string)
    requires home != ""
    ensures IndexablePath(SettingsFile) && IndexablePath(DebugSettingsFile)
    ensures DataPath(SettingsFile, home) == home + "/.config/indicator-stickynotes"
    ensures DataPath(DebugSettingsFile, home) == home + "/.stickynotes"
  {
    HomeRelative(".config/indicator-stickynotes", home);
    HomeRelative(".stickynotes", home);
  }

  /** `~/rest` names `rest` inside the home directory. */
  lemma HomeRelative(rest: string, home: string)
    requires home != "" && rest != ""
    ensures IndexablePath("~/" + rest) && DataPath("~/" + rest, home) == home + "/" + rest
  {
    assert ("~/" + rest)[2..] == rest;
  }

  // ---------------------------------------------------------------------------
  // Note.Delete's splice

  /** `append(s[:i], s[i+1:]...)` at the first `i` with `s[i] == x`, when there is one. */
  function RemoveFirst<T(==)>(s: seq<T>, x: T): seq<T>
    decreases |s|
  {
    if s == [] then []
    else if s[0] == x then s[1..]
    else [s[0]] + RemoveFirst(s[1..], x)
  }

  /** The index of the first `x` in `s`. */
  function FirstIndex<T(==)>(s: seq<T>, x: T): (i: nat)
    requires x in s
    ensures i < |s| && s[i] == x && x !in s[..i]
    decreases |s|
  {
    if s[0] == x then 0
    else
      var j := FirstIndex(s[1..], x);
      assert s[..j + 1] == [s[0]] + s[1..][..j];
      j + 1
  }

  /** Removing index `i` keeps a sequence duplicate-free, and keeps only its own elements. */
  lemma SpliceInjective<T>(s: seq<T>, i: nat)
    requires i < |s| && forall a, b :: 0 <= a < b < |s| ==> s[a] != s[b]
    ensures var r := s[..i] + s[i + 1..];
      && (forall a, b :: 0 <= a < b < |r| ==> r[a] != r[b])
      && (forall x :: x in r ==> x in s)
      && s[i] !in r
  {
    var r := s[..i] + s[i + 1..];
    forall a, b | 0 <= a < b < |r| ensures r[a] != r[b] {
      var a', b' := if a < i then a else a + 1, if b < i then b else b + 1;
      assert r[a] == s[a'] && r[b] == s[b'];
    }
    forall x | x in r ensures x in s {
      var a :| 0 <= a < |r| && r[a] == x;
      assert r[a] == s[if a < i then a else a + 1];
    }
    forall a | 0 <= a < |r| ensures r[a] != s[i] {
      assert r[a] == s[if a < i then a else a + 1];
    }
  }

  /** An index holding `x` with no `x` before it is `x`'s first index. */
  lemma FirstIndexUnique<T>(s: seq<T>, x: T, i: nat)
    requires i < |s| && s[i] == x && x !in s[..i]
    ensures FirstIndex(s, x) == i
  {
    var k := FirstIndex(s, x);
    assert forall j :: 0 <= j < i ==> s[..i][j] == s[j];
    assert forall j :: 0 <= j < k ==> s[..k][j] == s[j];
  }

  /** The splice at the first occurrence, element by element. */
  lemma {:induction false} RemoveFirstIsSplice<T>(s: seq<T>, x: T)
    requires x in s
    ensures RemoveFirst(s, x) == s[..FirstIndex(s, x)] + s[FirstIndex(s, x) + 1..]
    decreases |s|
  {
    if s[0] != x {
      RemoveFirstIsSplice(s[1..], x);
      var j := FirstIndex(s[1..], x);
      assert s[..j + 1] == [s[0]] + s[1..][..j];
      assert s[j + 2..] == s[1..][j + 1..];
    }
  }

  lemma {:induction false} RemoveFirstAbsent<T>(s: seq<T>, x: T)
    requires x !in s
    ensures RemoveFirst(s, x) == s
    decreases |s|
  {
    if s != [] {
      RemoveFirstAbsent(s[1..], x);
      assert s == [s[0]] + s[1..];
    }
  }

  /**
   * The splice removes exactly the first occurrence: the length drops by one
   * when `x` is present, the other elements keep their order, and an absent
   * `x` leaves the sequence as it is.
   */
  lemma {:induction false} RemoveFirstSpec<T>(s: seq<T>, x: T)
    ensures x !in s ==> RemoveFirst(s, x) == s
    ensures x in s ==> RemoveFirst(s, x) == s[..FirstIndex(s, x)] + s[FirstIndex(s, x) + 1..]
    ensures x in s ==> |RemoveFirst(s, x)| == |s| - 1
    ensures multiset(RemoveFirst(s, x)) == multiset(s) - multiset{x}
  {
    if x in s {
      RemoveFirstIsSplice(s, x);
      SpliceMultiset(s, x, FirstIndex(s, x));
    } else {
      RemoveFirstAbsent(s, x);
    }
  }

  lemma {:induction false} SpliceMultiset<T>(s: seq<T>, x: T, i: nat)
    requires i < |s| && s[i] == x
    requires RemoveFirst(s, x) == s[..i] + s[i + 1..]
    ensures multiset(RemoveFirst(s, x)) == multiset(s) - multiset{x}
  {
    var pre, post := s[..i], s[i + 1..];
    assert s == pre + [x] + post;
    assert multiset(s) == multiset(pre) + multiset{x} + multiset(post);
  }

  /** The loop of `Note.Delete`: the first index of `x`, or `None`. */
  method FindFirst<T(==)>(s: seq<T>, x: T) returns (r: Option<nat>)
    ensures r.None? <==> x !in s
    ensures r.Some? ==> r.value < |s| && s[r.value] == x && x !in s[..r.value]
  {
    var i := 0;
    while i < |s|
      invariant 0 <= i <= |s|
      invariant x !in s[..i]
    {
      if s[i] == x {
        return Some(i);
      }
      assert s[..i + 1] == s[..i] + [s[i]];
      i := i + 1;
    }
    assert s[..i] == s;
    return None;
  }
}
