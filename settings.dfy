/**
 * The category settings dialog (stickynotes/settings.go): `SettingsDialog`
 * keeps one `SettingsCategory` per category key, and the handlers of those
 * widgets edit the note set's category table `NoteSet.Categories` and its
 * `default_cat` property in place.
 *
 * The widgets are not modelled; a `SettingsCategory` keeps what the program
 * writes into them or reads back: the text of the name entry, the text of
 * the expander's label and the font of the font button. Colour buttons,
 * CSS, the notes' menus and fonts, and the colour conversions are not part
 * of this model; of the colour code, only the validity check of
 * `NewSettingsCategory` and the defaults it writes into the table are.
 */
module Settings {
  import opened Wrappers
  import opened Values
  import opened Backend
  import opened WindowCalls
  import opened StickyNotes
  import opened Bookkeeping

  /** What `RefreshTitle` appends to the default category's name. */
  const DefaultSuffix := " (Default Category)"

  /** The name shown for a category without a string `name`. */
  const UnnamedCategory := "New Category"

  /** The colours `NewSettingsCategory` stores when a category's colour is unusable. */
  const DefaultBg: Value := Floats([48.0 / 360.0, 1.0, 1.0])
  const DefaultText: Value := Floats([32.0 / 255.0, 32.0 / 255.0, 32.0 / 255.0])

  /** The font button's font when the category has none. */
  const DefaultFont := "Sans 12"

  // ---------------------------------------------------------------------------
  // The category table

  /** `Categories[cat]`, with a missing category read as an empty map. */
  function Entry(categories: map<string, Table>, cat: string): (t: Table)
    ensures cat in categories ==> t == categories[cat]
    ensures cat !in categories ==> t == map[]
  {
    if cat in categories then categories[cat] else map[]
  }

  /**
   * `Categories[cat][key] = v` after creating the category's map when it is
   * missing: only that key of that category changes.
   */
  function Put(categories: map<string, Table>, cat: string, key: string, v: Value): (r: map<string, Table>)
    ensures r.Keys == categories.Keys + {cat}
    ensures r[cat].Keys == Entry(categories, cat).Keys + {key} && r[cat][key] == v
    ensures forall k :: k in r[cat] && k != key ==> cat in categories && r[cat][k] == categories[cat][k]
    ensures forall c :: c in categories && c != cat ==> r[c] == categories[c]
  {
    categories[cat := Entry(categories, cat)[key := v]]
  }

  // ---------------------------------------------------------------------------
  // Colours (stickynotes/settings.go:67-151)

  predicate InUnit(x: real) {
    0.0 <= x <= 1.0
  }

  /**
   * The test `NewSettingsCategory` applies to a colour: a JSON array or a
   * `[]float64` of at least three components, the first three float64s
   * between 0 and 1.
   */
  predicate ColourValid(v: Value) {
    match v
    case List(items) =>
      && |items| >= 3 && items[0].Float? && items[1].Float? && items[2].Float?
      && InUnit(items[0].f) && InUnit(items[1].f) && InUnit(items[2].f)
    case Floats(fs) => |fs| >= 3 && InUnit(fs[0]) && InUnit(fs[1]) && InUnit(fs[2])
    case _ => false
  }

  /**
   * One colour of `NewSettingsCategory`: when `GetCategoryProperty(cat,
   * prop)` is not a valid colour, `dflt` is stored under `prop` in the
   * category; otherwise the table is kept.
   */
  function WithColour(categories: map<string, Table>, properties: Table, cat: string, prop: string, dflt: Value): (r: map<string, Table>)
    ensures ColourValid(CategoryProperty(properties, categories, cat, prop)) ==> r == categories
    ensures !ColourValid(CategoryProperty(properties, categories, cat, prop)) ==> r == Put(categories, cat, prop, dflt)
  {
    if ColourValid(CategoryProperty(properties, categories, cat, prop)) then categories
    else Put(categories, cat, prop, dflt)
  }

  /** The background colour, then the text colour, of `NewSettingsCategory`. */
  function ColourDefaults(categories: map<string, Table>, properties: Table, cat: string): (r: map<string, Table>)
    ensures categories.Keys <= r.Keys <= categories.Keys + {cat}
    ensures forall c :: c in categories && c != cat ==> r[c] == categories[c]
    ensures forall k :: k in Entry(r, cat) && k != "bgcolor_hsv" && k != "textcolor" ==>
              k in Entry(categories, cat) && Entry(r, cat)[k] == Entry(categories, cat)[k]
  {
    var bg := WithColour(categories, properties, cat, "bgcolor_hsv", DefaultBg);
    WithColour(bg, properties, cat, "textcolor", DefaultText)
  }

  /** The program's fallback colours pass its own colour test. */
  lemma FallbackColoursValid()
    ensures ColourValid(DefaultBg) && ColourValid(DefaultText)
    ensures FallbackProperties["bgcolor_hsv"] == DefaultBg && FallbackProperties["textcolor"] == DefaultText
  {
  }

  /**
   * After `NewSettingsCategory`, both colours of a named category resolve
   * to valid colours.
   */
  lemma ColourDefaultsResolve(categories: map<string, Table>, properties: Table, cat: string)
    requires cat != ""
    ensures var r := ColourDefaults(categories, properties, cat);
      && ColourValid(CategoryProperty(properties, r, cat, "bgcolor_hsv"))
      && ColourValid(CategoryProperty(properties, r, cat, "textcolor"))
  {
    FallbackColoursValid();
    var bg := WithColour(categories, properties, cat, "bgcolor_hsv", DefaultBg);
    CategoryPropertyResolution(properties, categories, cat, "bgcolor_hsv");
    CategoryPropertyResolution(properties, bg, cat, "bgcolor_hsv");
    assert ColourValid(CategoryProperty(properties, bg, cat, "bgcolor_hsv"));
    var r := WithColour(bg, properties, cat, "textcolor", DefaultText);
    CategoryPropertyResolution(properties, bg, cat, "textcolor");
    CategoryPropertyResolution(properties, r, cat, "textcolor");
    CategoryPropertyResolution(properties, r, cat, "bgcolor_hsv");
  }

  /** Building a category's widgets a second time writes no further defaults. */
  lemma ColourDefaultsIdempotent(categories: map<string, Table>, properties: Table, cat: string)
    requires cat != ""
    ensures ColourDefaults(ColourDefaults(categories, properties, cat), properties, cat) == ColourDefaults(categories, properties, cat)
  {
    ColourDefaultsResolve(categories, properties, cat);
  }

  /** A new, empty category takes its colours from the fallbacks, so nothing is written into it. */
  lemma NewCategoryUntouched(categories: map<string, Table>, properties: Table, cid: string)
    requires cid != ""
    ensures ColourDefaults(categories[cid := map[]], properties, cid) == categories[cid := map[]]
  {
    FallbackColoursValid();
    CategoryPropertyResolution(properties, categories[cid := map[]], cid, "bgcolor_hsv");
    CategoryPropertyResolution(properties, categories[cid := map[]], cid, "textcolor");
  }

  /**
   * For a named category present in the table, the defaults written for it
   * depend on its own entry only.
   */
  lemma ColourDefaultsLocal(c1: map<string, Table>, c2: map<string, Table>, properties: Table, cat: string)
    requires cat != "" && cat in c1 && cat in c2 && c1[cat] == c2[cat]
    ensures cat in ColourDefaults(c1, properties, cat) && cat in ColourDefaults(c2, properties, cat)
    ensures ColourDefaults(c1, properties, cat)[cat] == ColourDefaults(c2, properties, cat)[cat]
  {
    var b1 := WithColour(c1, properties, cat, "bgcolor_hsv", DefaultBg);
    var b2 := WithColour(c2, properties, cat, "bgcolor_hsv", DefaultBg);
    WithColourLocal(c1, c2, properties, cat, "bgcolor_hsv", DefaultBg);
    WithColourLocal(b1, b2, properties, cat, "textcolor", DefaultText);
  }

  /** One colour of `ColourDefaultsLocal`. */
  lemma WithColourLocal(c1: map<string, Table>, c2: map<string, Table>, properties: Table, cat: string, prop: string, dflt: Value)
    requires cat != "" && cat in c1 && cat in c2 && c1[cat] == c2[cat]
    ensures cat in WithColour(c1, properties, cat, prop, dflt) && cat in WithColour(c2, properties, cat, prop, dflt)
    ensures WithColour(c1, properties, cat, prop, dflt)[cat] == WithColour(c2, properties, cat, prop, dflt)[cat]
  {
    CategoryPropertyResolution(properties, c1, cat, prop);
    CategoryPropertyResolution(properties, c2, cat, prop);
  }


  /**
   * The table during `NewSettingsDialog`, started from `c0`: the keys are
   * those of `c0`, the categories `cats` still to take keep their original
   * entries, and every named category of `done` carries the defaults of its
   * original entry.
   */
  ghost predicate TableBuilt(cur: map<string, Table>, c0: map<string, Table>, properties: Table, cats: set<string>, done: set<string>) {
    && cur.Keys == c0.Keys && cats <= c0.Keys
    && (forall k :: k in cats ==> cur[k] == c0[k])
    && (forall k :: k in done && k != "" ==> k in cur && cur[k] == ColourDefaults(c0, properties, k)[k])
  }

  /** Taking the category `c` next keeps `TableBuilt`. */
  lemma {:induction false} DefaultsStep(cur: map<string, Table>, c0: map<string, Table>, properties: Table, c: string, cats: set<string>, done: set<string>)
    requires TableBuilt(cur, c0, properties, cats, done) && c in cats && c !in done
    ensures TableBuilt(ColourDefaults(cur, properties, c), c0, properties, cats - {c}, done + {c})
  {
    var r := ColourDefaults(cur, properties, c);
    if c != "" {
      ColourDefaultsLocal(cur, c0, properties, c);
    }
    forall k | k in done && k != "" ensures k in r && r[k] == ColourDefaults(c0, properties, k)[k] {
      assert k != c;
    }
  }

  /** Taking `c` out of the keys still to visit adds it to the keys visited. */
  lemma TakeOne(all: set<string>, cats: set<string>, c: string)
    requires c in cats
    ensures (all - cats) + {c} == all - (cats - {c}) || c !in all
  {
  }

  // ---------------------------------------------------------------------------
  // Name, title and font

  /** The name `NewSettingsCategory` and `RefreshTitle` read: the category's string `name`, or "New Category". */
  function CategoryName(categories: map<string, Table>, cat: string): (name: string)
    ensures cat in categories && GetString(categories[cat], "name").Some? ==> name == GetString(categories[cat], "name").value
    ensures !(cat in categories && GetString(categories[cat], "name").Some?) ==> name == UnnamedCategory
  {
    if cat in categories && GetString(categories[cat], "name").Some? then GetString(categories[cat], "name").value
    else UnnamedCategory
  }

  /** `default_cat` is the string `cat`. */
  predicate IsDefault(properties: Table, cat: string) {
    GetString(properties, "default_cat") == Some(cat)
  }

  /**
   * The label `RefreshTitle` (settings.go:182-193) writes: the category's
   * name, followed by " (Default Category)" exactly when it is the default
   * category.
   */
  function Title(categories: map<string, Table>, properties: Table, cat: string): (t: string)
    ensures var name := CategoryName(categories, cat);
      && |t| >= |name| && t[..|name|] == name
      && (IsDefault(properties, cat) <==> |t| == |name| + |DefaultSuffix|)
      && (IsDefault(properties, cat) ==> t[|name|..] == DefaultSuffix)
      && (!IsDefault(properties, cat) ==> t == name)
  {
    CategoryName(categories, cat) + if IsDefault(properties, cat) then DefaultSuffix else ""
  }

  /** The font `NewSettingsCategory` gives the font button: the category's non-empty font string, or "Sans 12". */
  function FontName(categories: map<string, Table>, properties: Table, cat: string): (f: string)
    ensures f != ""
    ensures CategoryProperty(properties, categories, cat, "font").Str? && CategoryProperty(properties, categories, cat, "font").s != "" ==>
              f == CategoryProperty(properties, categories, cat, "font").s
    ensures !(CategoryProperty(properties, categories, cat, "font").Str? && CategoryProperty(properties, categories, cat, "font").s != "") ==>
              f == DefaultFont
  {
    match CategoryProperty(properties, categories, cat, "font")
    case Str(s) => if s == "" then DefaultFont else s
    case _ => DefaultFont
  }

  /** After `OnENameChanged` writes `text`, the category's name is `text`. */
  lemma NameWritten(categories: map<string, Table>, cat: string, text: string)
    ensures CategoryName(Put(categories, cat, "name", Str(text)), cat) == text
  {
  }

  /** After `OnUpdateFont` writes a non-empty font, a named category resolves to that font. */
  lemma FontWritten(categories: map<string, Table>, properties: Table, cat: string, font: string)
    requires cat != "" && font != ""
    ensures FontName(Put(categories, cat, "font", Str(font)), properties, cat) == font
  {
    CategoryPropertyResolution(properties, Put(categories, cat, "font", Str(font)), cat, "font");
  }

  /** Writing a key other than `name` leaves every category's name as it was. */
  lemma PutKeepsName(categories: map<string, Table>, cat: string, key: string, v: Value, k: string)
    requires key != "name"
    ensures CategoryName(Put(categories, cat, key, v), k) == CategoryName(categories, k)
  {
    var r := Put(categories, cat, key, v);
    if k == cat {
      assert GetString(r[cat], "name") == GetString(Entry(categories, cat), "name");
    }
  }

  /** Writing a key other than `font` leaves every category's font as it was. */
  lemma PutKeepsFont(categories: map<string, Table>, properties: Table, cat: string, key: string, v: Value, k: string)
    requires key != "font"
    ensures FontName(Put(categories, cat, key, v), properties, k) == FontName(categories, properties, k)
  {
    var r := Put(categories, cat, key, v);
    CategoryPropertyResolution(properties, categories, k, "font");
    CategoryPropertyResolution(properties, r, k, "font");
  }

  /** The colour defaults of any category leave every name, title and font as they were. */
  lemma DefaultsKeepLabels(categories: map<string, Table>, properties: Table, cat: string, k: string)
    ensures var r := ColourDefaults(categories, properties, cat);
      && CategoryName(r, k) == CategoryName(categories, k)
      && Title(r, properties, k) == Title(categories, properties, k)
      && FontName(r, properties, k) == FontName(categories, properties, k)
  {
    var bg := WithColour(categories, properties, cat, "bgcolor_hsv", DefaultBg);
    PutKeepsName(categories, cat, "bgcolor_hsv", DefaultBg, k);
    PutKeepsFont(categories, properties, cat, "bgcolor_hsv", DefaultBg, k);
    PutKeepsName(bg, cat, "textcolor", DefaultText, k);
    PutKeepsFont(bg, properties, cat, "textcolor", DefaultText, k);
  }

  /** `name`, `title` and `font` are what the widgets of category `k` show. */
  predicate Labelled(categories: map<string, Table>, properties: Table, k: string, name: string, title: string, font: string) {
    && name == CategoryName(categories, k)
    && title == Title(categories, properties, k)
    && font == FontName(categories, properties, k)
  }

  /** Labels that were right stay right after the colour defaults of any category. */
  lemma LabelsKept(categories: map<string, Table>, properties: Table, cat: string, k: string, name: string, title: string, font: string)
    requires Labelled(categories, properties, k, name, title, font)
    ensures Labelled(ColourDefaults(categories, properties, cat), properties, k, name, title, font)
  {
    DefaultsKeepLabels(categories, properties, cat, k);
  }

  // ---------------------------------------------------------------------------
  // The widgets

  /** The widgets of one category (`SettingsCategory`). */
  class SettingsCategory {
    const dialog: SettingsDialog
    const noteSet: NoteSet
    const cat: string
    /** The text of the name entry `EName`. */
    var nameText: string
    /** The text of the expander's label `LExp`. */
    var title: string
    /** The font of the font button `FbFont`. */
    var font: string

    /**
     * `NewSettingsCategory` (settings.go:26-170): the entry shows the
     * category's name, the label its title; a colour that is not valid is
     * replaced by its default in the table; the font button shows the
     * category's font.
     */
    constructor (dialog: SettingsDialog, cat: string)
      modifies dialog.noteSet`categories
      ensures this.dialog == dialog && noteSet == dialog.noteSet && this.cat == cat
      ensures noteSet.categories == ColourDefaults(old(dialog.noteSet.categories), noteSet.properties, cat)
      ensures nameText == CategoryName(noteSet.categories, cat)
      ensures title == Title(noteSet.categories, noteSet.properties, cat)
      ensures font == FontName(noteSet.categories, noteSet.properties, cat)
    {
      this.dialog := dialog;
      noteSet := dialog.noteSet;
      this.cat := cat;
      new;
      ghost var c0 := noteSet.categories;
      nameText := CategoryName(noteSet.categories, cat);
      RefreshTitle();
      noteSet.categories := WithColour(noteSet.categories, noteSet.properties, cat, "bgcolor_hsv", DefaultBg);
      noteSet.categories := WithColour(noteSet.categories, noteSet.properties, cat, "textcolor", DefaultText);
      font := FontName(noteSet.categories, noteSet.properties, cat);
      DefaultsKeepLabels(c0, noteSet.properties, cat, cat);
    }

    /** `RefreshTitle` (settings.go:182-193). */
    method RefreshTitle()
      modifies this`title
      ensures title == Title(noteSet.categories, noteSet.properties, cat)
    {
      title := Title(noteSet.categories, noteSet.properties, cat);
    }

    /**
     * `OnENameChanged` (settings.go:195-208): the entry's text becomes the
     * category's `name`, and the label is refreshed. The notes' menus are
     * not modelled.
     */
    method OnENameChanged()
      modifies noteSet`categories, this`title
      ensures noteSet.categories == Put(old(noteSet.categories), cat, "name", Str(nameText))
      ensures CategoryName(noteSet.categories, cat) == nameText
      ensures title == Title(noteSet.categories, noteSet.properties, cat)
    {
      noteSet.categories := Put(noteSet.categories, cat, "name", Str(nameText));
      NameWritten(old(noteSet.categories), cat, nameText);
      RefreshTitle();
    }

    /**
     * `OnUpdateFont` (settings.go:320-332): the font button's font becomes
     * the category's `font`. The notes' fonts are not modelled.
     */
    method OnUpdateFont()
      modifies noteSet`categories
      ensures noteSet.categories == Put(old(noteSet.categories), cat, "font", Str(font))
      ensures cat != "" && font != "" ==> FontName(noteSet.categories, noteSet.properties, cat) == font
    {
      noteSet.categories := Put(noteSet.categories, cat, "font", Str(font));
      if cat != "" && font != "" {
        FontWritten(old(noteSet.categories), noteSet.properties, cat, font);
      }
    }

    /**
     * `OnMakeDefault` (settings.go:334-343): `default_cat` becomes this
     * category and every title is refreshed, so exactly this category's
     * title carries the suffix. The CSS and fonts are not modelled.
     */
    method OnMakeDefault()
      requires dialog.Valid() && dialog.noteSet == noteSet
      modifies noteSet`properties, dialog.categories.Values`title
      ensures noteSet.properties == old(noteSet.properties)["default_cat" := Str(cat)]
      ensures noteSet.categories == old(noteSet.categories)
      ensures forall k :: k in dialog.categories ==> dialog.categories[k].title == Title(noteSet.categories, noteSet.properties, k)
      ensures forall k :: k in dialog.categories ==> (IsDefault(noteSet.properties, k) <==> k == cat)
    {
      noteSet.properties := noteSet.properties["default_cat" := Str(cat)];
      dialog.RefreshCategoryTitles();
    }

    /**
     * `OnDeleteCat` (settings.go:345-355), with the dialog's answer
     * `confirmed`: when it is given, `DeleteCategory`.
     */
    method OnDeleteCat(confirmed: bool)
      requires dialog.Valid() && dialog.noteSet == noteSet
      modifies noteSet`categories, dialog`categories
      ensures dialog.Valid()
      ensures confirmed ==> noteSet.categories == old(noteSet.categories) - {cat} && dialog.categories == old(dialog.categories) - {cat}
      ensures !confirmed ==> noteSet.categories == old(noteSet.categories) && dialog.categories == old(dialog.categories)
    {
      if confirmed {
        dialog.DeleteCategory(cat);
      }
    }
  }

  /** The settings dialog (`SettingsDialog`): one `SettingsCategory` per category key. */
  class SettingsDialog {
    const noteSet: NoteSet
    var categories: map<string, SettingsCategory>

    /** Every widget is filed under its own category, and belongs to this dialog. */
    ghost predicate Valid()
      reads this
    {
      forall k :: k in categories ==> categories[k].cat == k && categories[k].dialog == this && categories[k].noteSet == noteSet
    }

    /** A widget shows what the table says about its category. */
    ghost predicate Shows(k: string)
      requires k in categories
      reads this, noteSet`categories, noteSet`properties, categories[k]
    {
      Labelled(noteSet.categories, noteSet.properties, k, categories[k].nameText, categories[k].title, categories[k].font)
    }

    /**
     * `NewSettingsDialog` (settings.go:367-415): widgets for every category,
     * taken in an order the map does not fix. The keys of the table stay;
     * each named category carries the colour defaults of its own entry. The
     * dialog's own widgets and its run are not modelled.
     */
    constructor (noteSet: NoteSet)
      modifies noteSet`categories
      ensures Valid() && this.noteSet == noteSet
      ensures categories.Keys == noteSet.categories.Keys == old(noteSet.categories).Keys
      ensures forall k :: k in categories ==> Shows(k)
      ensures forall k :: k in categories && k != "" ==>
                noteSet.categories[k] == ColourDefaults(old(noteSet.categories), noteSet.properties, k)[k]
    {
      this.noteSet := noteSet;
      categories := map[];
      new;
      ghost var c0 := noteSet.categories;
      var cats := noteSet.categories.Keys;
      while cats != {}
        invariant Building(c0, cats)
        decreases |cats|
      {
        var c :| c in cats;
        AddNew(c, c0, cats);
        cats := cats - {c};
      }
    }

    /**
     * The state of `NewSettingsDialog` with the categories `cats` of the
     * original table `c0` still to take.
     */
    ghost predicate Building(c0: map<string, Table>, cats: set<string>)
      reads this, noteSet`categories, noteSet`properties, categories.Values
    {
      && Valid() && categories.Keys == c0.Keys - cats
      && TableBuilt(noteSet.categories, c0, noteSet.properties, cats, categories.Keys)
      && (forall k :: k in categories ==> Shows(k))
    }

    /** One turn of `NewSettingsDialog`'s loop: `AddCategoryWidgets` of the category `c`. */
    method AddNew(c: string, ghost c0: map<string, Table>, ghost cats: set<string>)
      requires Building(c0, cats) && c in cats
      modifies this`categories, noteSet`categories
      ensures Building(c0, cats - {c})
    {
      DefaultsStep(noteSet.categories, c0, noteSet.properties, c, cats, categories.Keys);
      AddCategoryWidgets(c);
      TakeOne(c0.Keys, cats, c);
    }

    /**
     * `AddCategoryWidgets` (settings.go:417-437): a category that already
     * has widgets changes nothing; otherwise a new `SettingsCategory` is
     * filed under it. Packing the expander is not modelled.
     */
    method AddCategoryWidgets(cat: string)
      requires Valid()
      modifies this`categories, noteSet`categories
      ensures Valid() && cat in categories
      ensures cat in old(categories) ==> categories == old(categories) && noteSet.categories == old(noteSet.categories)
      ensures cat !in old(categories) ==>
                && categories.Keys == old(categories).Keys + {cat}
                && fresh(categories[cat]) && Shows(cat)
                && noteSet.categories == ColourDefaults(old(noteSet.categories), noteSet.properties, cat)
      ensures forall k :: k in old(categories) ==> categories[k] == old(categories[k])
      ensures forall k :: k in old(categories) && old(Shows(k)) ==> Shows(k)
      ensures (forall k :: k in old(categories) ==> old(Shows(k))) ==> forall k :: k in categories ==> Shows(k)
    {
      if cat in categories {
        return;
      }
      var sc := new SettingsCategory(this, cat);
      categories := categories[cat := sc];
      forall k | k in old(categories) && old(Shows(k)) ensures Shows(k) {
        var w := categories[k];
        LabelsKept(old(noteSet.categories), noteSet.properties, cat, k, w.nameText, w.title, w.font);
      }
    }

    /**
     * `DeleteCategory` (settings.go:447-461): the category leaves the table
     * and its widgets leave the dialog; nothing else changes. Destroying the
     * expander and updating the notes are not modelled.
     */
    method DeleteCategory(cat: string)
      requires Valid()
      modifies noteSet`categories, this`categories
      ensures Valid()
      ensures noteSet.categories == old(noteSet.categories) - {cat} && categories == old(categories) - {cat}
      ensures cat !in noteSet.categories && cat !in categories
      ensures forall k :: k in old(noteSet.categories) && k != cat ==> k in noteSet.categories && noteSet.categories[k] == old(noteSet.categories[k])
    {
      noteSet.categories := noteSet.categories - {cat};
      if cat in categories {
        categories := categories - {cat};
      }
    }

    /** `RefreshCategoryTitles` (settings.go:463-467), in an order the map does not fix. */
    method RefreshCategoryTitles()
      requires Valid()
      modifies categories.Values`title
      ensures forall k :: k in categories ==> categories[k].title == Title(noteSet.categories, noteSet.properties, k)
    {
      var keys := categories.Keys;
      while keys != {}
        invariant keys <= categories.Keys
        invariant forall k :: k in categories && k !in keys ==> categories[k].title == Title(noteSet.categories, noteSet.properties, k)
        decreases |keys|
      {
        var k :| k in keys;
        categories[k].RefreshTitle();
        keys := keys - {k};
      }
    }

    /**
     * `OnNewCategory` (settings.go:439-445), with `cid` the fresh UUID: an
     * empty category is filed under it, gets its widgets, and the set is
     * saved (the `Write` returned).
     */
    method OnNewCategory(cid: string, shell: Shell) returns (w: Write)
      requires Valid() && noteSet.Valid() && cid != ""
      modifies noteSet`categories, this`categories
      modifies noteSet.Notes()`body, noteSet.Notes()`properties, noteSet.Guis()`lastKnownPos, noteSet.Guis()`lastKnownSize
      modifies noteSet.ext`available, noteSet.ext`connected
      ensures Valid() && cid in categories
      ensures noteSet.categories == old(noteSet.categories)[cid := map[]]
      ensures w == Write(DataPath(noteSet.dataFile, noteSet.home), Document(noteSet.FieldsAll(), noteSet.properties, noteSet.categories))
      ensures noteSet.Buffers() == old(noteSet.Buffers())
      ensures (noteSet.ext.State(), noteSet.Snaps()) == RefreshUpTo(old(noteSet.ext.State()), shell, old(noteSet.Snaps()), |noteSet.notes|)
      ensures Exported(noteSet.FieldsAll(), old(noteSet.FieldsAll()), noteSet.Snaps(), noteSet.Buffers())
    {
      AddEmpty(cid);
      noteSet.NotesUntouched();
      w := noteSet.Save(shell);
    }

    /** The first two steps of `OnNewCategory`: the empty category `cid` and its widgets. */
    method AddEmpty(cid: string)
      requires Valid() && cid != ""
      modifies noteSet`categories, this`categories
      ensures Valid() && cid in categories
      ensures noteSet.categories == old(noteSet.categories)[cid := map[]]
    {
      noteSet.categories := noteSet.categories[cid := map[]];
      NewCategoryUntouched(old(noteSet.categories), noteSet.properties, cid);
      AddCategoryWidgets(cid);
    }
  }
}
