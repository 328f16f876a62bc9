/** What a configuration means (loader/cfg.c:26-94, 272-425). */
module ConfigTables {
  import opened Bytes
  import opened ConfigTokens

  datatype Kind = Strg | Flag

  /** The data of a table entry: NULL, the address of flag_set, or a string. */
  datatype Value = Unset | Set | Str(text: string)

  datatype Entry = Entry(kind: Kind, name: string, data: Value)

  type Table = seq<Entry>

  function S(name: string): Entry { Entry(Strg, name, Unset) }

  function F(name: string): Entry { Entry(Flag, name, Unset) }

  const CF_OPTIONS: Table :=
    [S("device"), S("partition"), S("default"), S("timeout"), S("message"), S("root"), S("ramdisk"),
     F("read-only"), F("read-write"), S("append"), S("initrd"), S("initrd-size"), F("pause-after"),
     S("pause-message"), S("init-code"), S("init-message")]

  const CF_IMAGE: Table :=
    [S("image"), S("label"), S("alias"), S("device"), S("partition"), S("root"), S("ramdisk"),
     F("read-only"), F("read-write"), S("append"), S("literal"), S("initrd"), F("old-kernel"),
     F("pause-after"), S("pause-message")]

  function Lower(s: string): string {
    seq(|s|, i requires 0 <= i < |s| => if 'A' <= s[i] <= 'Z' then s[i] - 'A' + 'a' else s[i])
  }

  /** strcasecmp(a, b) == 0. */
  predicate Same(a: string, b: string) { Lower(a) == Lower(b) }

  /** The first entry with a name, or the length of the table. */
  function Find(t: Table, name: string): (k: nat)
    ensures k <= |t| && (k < |t| ==> Same(t[k].name, name))
    ensures forall j :: 0 <= j < k ==> !Same(t[j].name, name)
  {
    if t == [] || Same(t[0].name, name) then 0 else 1 + Find(t[1..], name)
  }

  /** cfg_get_strg_i. */
  function Lookup(t: Table, name: string): Value {
    var k := Find(t, name);
    if k < |t| then t[k].data else Unset
  }

  /** A value for a flag and a string without one are only warned about. */
  predicate WellTyped(k: Kind, s: Setting) { k == Strg <==> s.value.Some? }

  function Data(s: Setting): Value {
    if s.value.Some? then Str(s.value.value) else Set
  }

  datatype Tables = Tables(options: Table, images: seq<Table>) {
    /** curr_table: that of the last image, if there is one. */
    function Current(): Table {
      if images == [] then options else images[|images| - 1]
    }

    function WithCurrent(t: Table): Tables {
      if images == [] then Tables(t, images) else Tables(options, images[|images| - 1 := t])
    }
  }

  predicate IsImage(s: Setting) { Same(s.item, "image") }

  /** cfg_set: the tables afterwards, and whether the item is known. */
  function Apply(ts: Tables, s: Setting): (Tables, bool) {
    var ts1 := if IsImage(s) then Tables(ts.options, ts.images + [CF_IMAGE]) else ts;
    var t := ts1.Current();
    var k := Find(t, s.item);
    if k == |t| then (ts1, false)
    else if WellTyped(t[k].kind, s) then (ts1.WithCurrent(t[k := t[k].(data := Data(s))]), true)
    else (ts1, true)
  }

  /** The tables after a list of settings, up to the first unknown item. */
  function After(ts: Tables, ss: seq<Setting>): (Tables, bool) {
    if ss == [] then (ts, true)
    else
      var (t, ok) := After(ts, ss[..|ss| - 1]);
      if ok then Apply(t, ss[|ss| - 1]) else (t, false)
  }

  const NO_SETTINGS := Tables(CF_OPTIONS, [])

  // ----- The declarative meaning -----

  /** The sections of a list: each image item starts one, what precedes them is global. */
  function Sections(ss: seq<Setting>): seq<seq<Setting>> {
    if ss == [] then []
    else
      var before, s := Sections(ss[..|ss| - 1]), ss[|ss| - 1];
      if IsImage(s) then before + [[s]]
      else if before == [] then []
      else before[|before| - 1 := before[|before| - 1] + [s]]
  }

  function Globals(ss: seq<Setting>): seq<Setting> {
    if ss == [] || IsImage(ss[0]) then [] else [ss[0]] + Globals(ss[1..])
  }

  /** The last well-typed setting of an item. */
  function LastSet(k: Kind, ss: seq<Setting>, name: string): Value {
    if ss == [] then Unset
    else
      var s := ss[|ss| - 1];
      if Same(s.item, name) && WellTyped(k, s) then Data(s) else LastSet(k, ss[..|ss| - 1], name)
  }

  /** What a section says about a name; template lists the names it knows. */
  function Meaning(template: Table, ss: seq<Setting>, name: string): Value {
    var k := Find(template, name);
    if k < |template| then LastSet(template[k].kind, ss, name) else Unset
  }

  /** Table t is the template with the settings ss made in it. */
  ghost predicate Holds(t: Table, template: Table, ss: seq<Setting>) {
    && |t| == |template|
    && (forall i :: 0 <= i < |t| ==> t[i].kind == template[i].kind && t[i].name == template[i].name)
    && (forall i :: 0 <= i < |t| && Find(template, template[i].name) == i ==>
          t[i].data == LastSet(template[i].kind, ss, template[i].name))
  }

  lemma {:induction false} SameNames(t: Table, u: Table, name: string)
    requires |t| == |u| && forall i :: 0 <= i < |t| ==> t[i].name == u[i].name
    ensures Find(t, name) == Find(u, name)
    decreases |t|
  {
    if t != [] {
      SameNames(t[1..], u[1..], name);
    }
  }

  lemma {:induction false} FindSame(t: Table, a: string, b: string)
    requires Same(a, b)
    ensures Find(t, a) == Find(t, b)
    decreases |t|
  {
    if t != [] {
      FindSame(t[1..], a, b);
    }
  }

  lemma {:induction false} LastSetSame(k: Kind, ss: seq<Setting>, a: string, b: string)
    requires Same(a, b)
    ensures LastSet(k, ss, a) == LastSet(k, ss, b)
    decreases |ss|
  {
    if ss != [] {
      LastSetSame(k, ss[..|ss| - 1], a, b);
    }
  }

  lemma HoldsMeans(t: Table, template: Table, ss: seq<Setting>, name: string)
    requires Holds(t, template, ss)
    ensures Lookup(t, name) == Meaning(template, ss, name)
  {
    hide Same, LastSet, Find;
    SameNames(t, template, name);
    var k := Find(template, name);
    if k < |template| {
      FindSame(template, template[k].name, name);
      LastSetSame(template[k].kind, ss, template[k].name, name);
    }
  }

  lemma LastSetSnoc(k: Kind, ss: seq<Setting>, s: Setting, name: string)
    ensures LastSet(k, ss + [s], name) == if Same(s.item, name) && WellTyped(k, s) then Data(s) else LastSet(k, ss, name)
  {
    hide Same, WellTyped, Data;
    assert (ss + [s])[..|ss|] == ss;
  }

  /** Table t after one more setting of its entry k. */
  function Updated(t: Table, k: nat, s: Setting): Table
    requires k < |t|
  {
    if WellTyped(t[k].kind, s) then t[k := t[k].(data := Data(s))] else t
  }

  /** Making one more setting in a table. */
  lemma HoldsStep(t: Table, template: Table, ss: seq<Setting>, s: Setting)
    requires Holds(t, template, ss) && Find(t, s.item) < |t|
    ensures Holds(Updated(t, Find(t, s.item), s), template, ss + [s])
  {
    hide Find, LastSet, Lower, WellTyped, Data;
    SameNames(t, template, s.item);
    var t' := Updated(t, Find(t, s.item), s);
    forall i | 0 <= i < |t'| && Find(template, template[i].name) == i
      ensures t'[i].data == LastSet(template[i].kind, ss + [s], template[i].name)
    {
      LastSetSnoc(template[i].kind, ss, s, template[i].name);
      if Same(s.item, template[i].name) {
        FindSame(template, s.item, template[i].name);
      }
    }
  }

  lemma NothingSet(template: Table)
    requires forall i :: 0 <= i < |template| ==> template[i].data == Unset
    ensures Holds(template, template, [])
  {
  }

  /** The settings of section k, in the table of its image; the global ones in cf_options. */
  ghost predicate Right(ts: Tables, ss: seq<Setting>) {
    && Holds(ts.options, CF_OPTIONS, Globals(ss))
    && |ts.images| == |Sections(ss)|
    && forall k :: 0 <= k < |ts.images| ==> Holds(ts.images[k], CF_IMAGE, Sections(ss)[k])
  }

  lemma {:induction false} GlobalsSnoc(ss: seq<Setting>, s: Setting)
    ensures Globals(ss + [s]) == if Sections(ss) == [] && !IsImage(s) then Globals(ss) + [s] else Globals(ss)
    ensures Sections(ss) == [] <==> Globals(ss) == ss
    decreases |ss|
  {
    hide IsImage;
    if ss == [] {
      assert [s][1..] == [] && [] + [s] == [s];
    } else {
      SectionsCons(ss);
      assert (ss + [s])[0] == ss[0] && (ss + [s])[1..] == ss[1..] + [s];
      GlobalsSnoc(ss[1..], s);
      assert ss == [ss[0]] + ss[1..];
    }
  }

  /** Without an image item in front, the sections are those of the rest. */
  lemma {:induction false} SectionsCons(ss: seq<Setting>)
    requires ss != []
    ensures Sections(ss) == [] <==> !IsImage(ss[0]) && Sections(ss[1..]) == []
    decreases |ss|
  {
    hide IsImage;
    if |ss| == 1 {
      assert ss[..0] == [] && ss[1..] == [];
    } else {
      SectionsCons(ss[..|ss| - 1]);
      assert ss[1..][..|ss| - 2] == ss[..|ss| - 1][1..];
    }
  }

  /** One table among the images is right for its section. */
  lemma ImagesStep(ts: Tables, sections: seq<seq<Setting>>, k: nat, t: Table, section: seq<Setting>)
    requires |ts.images| == |sections| && k < |sections| && Holds(t, CF_IMAGE, section)
    requires forall j :: 0 <= j < |sections| ==> Holds(ts.images[j], CF_IMAGE, sections[j])
    ensures var images, more := ts.images[k := t], sections[k := section];
            forall j :: 0 <= j < |images| ==> Holds(images[j], CF_IMAGE, more[j])
  {
    hide Holds, CF_IMAGE, CF_OPTIONS;
  }

  lemma ImageRight(ts: Tables, ss: seq<Setting>, s: Setting)
    requires Right(ts, ss) && IsImage(s) && Apply(ts, s).1
    ensures Right(Apply(ts, s).0, ss + [s])
  {
    hide CF_OPTIONS, CF_IMAGE, Find, WellTyped, Data, Same, Holds, Globals;
    var more := ss + [s];
    GlobalsSnoc(ss, s);
    assert more[..|more| - 1] == ss && more[|more| - 1] == s;
    FreshImage();
    HoldsStep(CF_IMAGE, CF_IMAGE, [], s);
    assert [] + [s] == [s];
    assert (ts.images + [CF_IMAGE])[..|ts.images|] == ts.images;
    var t := Updated(CF_IMAGE, Find(CF_IMAGE, s.item), s);
    assert Apply(ts, s).0 == Tables(ts.options, ts.images + [t]);
    assert Sections(more) == Sections(ss) + [[s]];
  }

  lemma GlobalRight(ts: Tables, ss: seq<Setting>, s: Setting)
    requires Right(ts, ss) && !IsImage(s) && ts.images == [] && Apply(ts, s).1
    ensures Right(Apply(ts, s).0, ss + [s])
  {
    hide CF_OPTIONS, CF_IMAGE, Find, WellTyped, Data, Same, Holds, Globals;
    var more := ss + [s];
    GlobalsSnoc(ss, s);
    assert more[..|more| - 1] == ss && more[|more| - 1] == s;
    HoldsStep(ts.options, CF_OPTIONS, Globals(ss), s);
    assert Apply(ts, s).0 == Tables(Updated(ts.options, Find(ts.options, s.item), s), []);
    assert Sections(more) == [];
  }

  lemma LocalRight(ts: Tables, ss: seq<Setting>, s: Setting)
    requires Right(ts, ss) && !IsImage(s) && ts.images != [] && Apply(ts, s).1
    ensures Right(Apply(ts, s).0, ss + [s])
  {
    hide CF_OPTIONS, CF_IMAGE, Find, WellTyped, Data, Same, Holds, Globals;
    var more, sections, k := ss + [s], Sections(ss), |ts.images| - 1;
    GlobalsSnoc(ss, s);
    assert more[..|more| - 1] == ss && more[|more| - 1] == s;
    HoldsStep(ts.images[k], CF_IMAGE, sections[k], s);
    var t := Updated(ts.images[k], Find(ts.images[k], s.item), s);
    ImagesStep(ts, sections, k, t, sections[k] + [s]);
    assert Apply(ts, s).0 == Tables(ts.options, ts.images[k := t]);
    assert Sections(more) == sections[k := sections[k] + [s]];
  }

  lemma ApplyRight(ts: Tables, ss: seq<Setting>, s: Setting)
    requires Right(ts, ss) && Apply(ts, s).1
    ensures Right(Apply(ts, s).0, ss + [s])
  {
    hide Right, Apply, IsImage;
    if IsImage(s) {
      ImageRight(ts, ss, s);
    } else if ts.images == [] {
      GlobalRight(ts, ss, s);
    } else {
      LocalRight(ts, ss, s);
    }
  }

  lemma FreshImage()
    ensures Holds(CF_IMAGE, CF_IMAGE, []) && Holds(CF_OPTIONS, CF_OPTIONS, [])
  {
    NothingSet(CF_IMAGE);
    NothingSet(CF_OPTIONS);
  }

  /** Main result, on tables: after settings that are all known, every table says
      what its part of the list means. */
  lemma {:induction false} AfterRight(ss: seq<Setting>)
    requires After(NO_SETTINGS, ss).1
    ensures Right(After(NO_SETTINGS, ss).0, ss)
    decreases |ss|
  {
    hide Apply, Holds;
    if ss == [] {
      FreshImage();
    } else {
      var before := ss[..|ss| - 1];
      AfterRight(before);
      ApplyRight(After(NO_SETTINGS, before).0, before, ss[|ss| - 1]);
      assert before + [ss[|ss| - 1]] == ss;
    }
  }

  /** Item i is in the table of the place it stands at. */
  predicate Known(ss: seq<Setting>, i: nat)
    requires i < |ss|
  {
    var t := if IsImage(ss[i]) || Sections(ss[..i]) != [] then CF_IMAGE else CF_OPTIONS;
    Find(t, ss[i].item) < |t|
  }

  lemma ApplyKnown(ts: Tables, ss: seq<Setting>, s: Setting)
    requires Right(ts, ss)
    ensures Apply(ts, s).1 <==> Known(ss + [s], |ss|)
  {
    hide CF_OPTIONS, CF_IMAGE, Find, WellTyped, Data, Same, LastSet, Sections;
    assert (ss + [s])[..|ss|] == ss;
    if !IsImage(s) {
      if ts.images == [] {
        SameNames(ts.options, CF_OPTIONS, s.item);
      } else {
        SameNames(ts.images[|ts.images| - 1], CF_IMAGE, s.item);
      }
    }
  }

  /** A list is accepted exactly when each of its items is known at its place. */
  lemma {:induction false} AcceptedIsKnown(ss: seq<Setting>)
    ensures After(NO_SETTINGS, ss).1 <==> forall i :: 0 <= i < |ss| ==> Known(ss, i)
    decreases |ss|
  {
    hide Apply, Right, IsImage, Sections, Find;
    if ss != [] {
      var n := |ss| - 1;
      var before := ss[..n];
      AcceptedIsKnown(before);
      assert before + [ss[n]] == ss;
      forall i | 0 <= i < n ensures Known(before, i) == Known(ss, i) {
        assert before[..i] == ss[..i];
      }
      if After(NO_SETTINGS, before).1 {
        AfterRight(before);
        ApplyKnown(After(NO_SETTINGS, before).0, before, ss[n]);
      }
    }
  }

  /** A rejected item leaves the tables alone; an image item is never rejected. */
  lemma RejectKeeps(ts: Tables, s: Setting)
    requires !Apply(ts, s).1
    ensures Apply(ts, s).0 == ts
  {
    hide Find;
    assert IsImage(s) ==> Same(CF_IMAGE[0].name, s.item);
  }

  /** An unknown item leaves the tables of what precedes it. */
  lemma {:induction false} RejectedIsPrefix(ts: Tables, ss: seq<Setting>, i: nat)
    requires i < |ss| && After(ts, ss[..i]).1 && !After(ts, ss[..i + 1]).1
    ensures !After(ts, ss).1 && After(ts, ss).0 == After(ts, ss[..i]).0
    decreases |ss|
  {
    hide Apply;
    var n := |ss| - 1;
    if i == n {
      assert ss[..i + 1] == ss;
      RejectKeeps(After(ts, ss[..n]).0, ss[n]);
    } else {
      assert ss[..n][..i] == ss[..i] && ss[..n][..i + 1] == ss[..i + 1];
      RejectedIsPrefix(ts, ss[..n], i);
    }
  }

  // ----- Asking for a setting -----

  /** strrchr(s, '/') + 1, or s itself. */
  function Basename(s: string): (b: string)
    ensures '/' !in b && |b| <= |s| && b == s[|s| - |b|..]
    ensures |b| < |s| ==> s[|s| - |b| - 1] == '/'
  {
    if s == "" || s[|s| - 1] == '/' then "" else Basename(s[..|s| - 1]) + [s[|s| - 1]]
  }

  /** What the lookup of an item sees of an image. */
  datatype View = View(tag: Value, image: Value, alias: Value, value: Value) {
    /** The name of the image. Without a label and an image path the loader passes
        NULL to strrchr. */
    function Name(): Result<string> {
      if tag.Str? then Ok(tag.text)
      else if image.Str? then Ok(Basename(image.text))
      else Err(Undefined)
    }

    predicate Answers(image: string) {
      Name() == Ok(image) || alias == Str(image)
    }
  }

  /** The images in order: the first one that answers to the name decides. */
  function Ask(views: seq<View>, image: string, global: Value): Result<Value> {
    if views == [] then Ok(Unset)
    else
      var name :- views[0].Name();
      if views[0].Answers(image) then Ok(if views[0].value != Unset then views[0].value else global)
      else Ask(views[1..], image, global)
  }

  /** Reference for cfg_get_strg, on tables. */
  function GetStrg(ts: Tables, image: Option<string>, item: string): Result<Value> {
    if image.None? then Ok(Lookup(ts.options, item))
    else Ask(TableViews(ts.images, item), image.value, Lookup(ts.options, item))
  }

  function TableViews(images: seq<Table>, item: string): (vs: seq<View>)
    ensures |vs| == |images|
  {
    seq(|images|, k requires 0 <= k < |images| => TableView(images[k], item))
  }

  function TableView(t: Table, item: string): View {
    View(Lookup(t, "label"), Lookup(t, "image"), Lookup(t, "alias"), Lookup(t, item))
  }

  /** The same from the sections of the text. */
  function SectionViews(sections: seq<seq<Setting>>, item: string): (vs: seq<View>)
    ensures |vs| == |sections|
  {
    seq(|sections|, k requires 0 <= k < |sections| =>
      View(Meaning(CF_IMAGE, sections[k], "label"), Meaning(CF_IMAGE, sections[k], "image"),
           Meaning(CF_IMAGE, sections[k], "alias"), Meaning(CF_IMAGE, sections[k], item)))
  }

  lemma ViewsMean(ts: Tables, ss: seq<Setting>, item: string, k: nat)
    requires Right(ts, ss) && k < |ts.images|
    ensures TableViews(ts.images, item)[k] == SectionViews(Sections(ss), item)[k]
  {
    hide CF_OPTIONS, CF_IMAGE, Holds, Lookup, Meaning, Globals, Sections;
    HoldsMeans(ts.images[k], CF_IMAGE, Sections(ss)[k], "label");
    HoldsMeans(ts.images[k], CF_IMAGE, Sections(ss)[k], "image");
    HoldsMeans(ts.images[k], CF_IMAGE, Sections(ss)[k], "alias");
    HoldsMeans(ts.images[k], CF_IMAGE, Sections(ss)[k], item);
  }

  /** Main result: on an accepted list, cfg_get_strg gives what the list means. */
  lemma ConfigMeaning(ss: seq<Setting>, image: Option<string>, item: string)
    requires After(NO_SETTINGS, ss).1
    ensures GetStrg(After(NO_SETTINGS, ss).0, image, item) ==
            var global := Meaning(CF_OPTIONS, Globals(ss), item);
            if image.None? then Ok(global) else Ask(SectionViews(Sections(ss), item), image.value, global)
  {
    hide CF_OPTIONS, CF_IMAGE, Holds, Lookup, Meaning, Globals, Sections, Ask;
    var ts := After(NO_SETTINGS, ss).0;
    AfterRight(ss);
    HoldsMeans(ts.options, CF_OPTIONS, Globals(ss), item);
    forall k | 0 <= k < |ts.images|
      ensures TableViews(ts.images, item)[k] == SectionViews(Sections(ss), item)[k]
    {
      ViewsMean(ts, ss, item, k);
    }
    assert TableViews(ts.images, item) == SectionViews(Sections(ss), item);
  }

  /** The answer is the local value, or else the global one, of the first image
      that answers, if all images up to it have a name. */
  lemma {:induction false} AskIsFirst(views: seq<View>, image: string, global: Value, k: nat)
    requires k <= |views| && forall j :: 0 <= j < k ==> views[j].Name().Ok? && !views[j].Answers(image)
    requires k < |views| ==> views[k].Name().Ok? && views[k].Answers(image)
    ensures Ask(views, image, global) ==
            Ok(if k == |views| then Unset else if views[k].value != Unset then views[k].value else global)
    decreases k
  {
    if 0 < k {
      AskIsFirst(views[1..], image, global, k - 1);
    }
  }

  /** The loader gets to image k, which has no name: those before it have one and
      do not answer. */
  ghost predicate Trips(views: seq<View>, image: string, k: nat)
    requires k < |views|
  {
    views[k].Name().Err? && forall j :: 0 <= j < k ==> views[j].Name().Ok? && !views[j].Answers(image)
  }

  /** A question fails exactly when the loader gets to an image without a name. */
  lemma {:induction false} AskFails(views: seq<View>, image: string, global: Value)
    ensures Ask(views, image, global) == Err(Undefined) <==> exists k :: 0 <= k < |views| && Trips(views, image, k)
    ensures Ask(views, image, global).Err? ==> Ask(views, image, global) == Err(Undefined)
    decreases |views|
  {
    if views != [] {
      var rest := views[1..];
      AskFails(rest, image, global);
      if views[0].Name().Err? {
        assert Trips(views, image, 0);
      } else if !views[0].Answers(image) {
        if Ask(rest, image, global).Err? {
          var k :| 0 <= k < |rest| && Trips(rest, image, k);
          forall j | 0 <= j < k + 1 ensures views[j].Name().Ok? && !views[j].Answers(image) {
            assert j > 0 ==> rest[j - 1] == views[j];
          }
          assert Trips(views, image, k + 1);
        }
        forall k | 0 <= k < |views| && Trips(views, image, k) ensures k > 0 && Trips(rest, image, k - 1) {
          assert forall j :: 0 <= j < k - 1 ==> rest[j] == views[j + 1];
        }
      }
    }
  }

  /** A section gives neither its label nor its image path a value. */
  ghost predicate Nameless(section: seq<Setting>) {
    forall s :: s in section && s.value.Some? ==> !Same(s.item, "label") && !Same(s.item, "image")
  }

  lemma {:induction false} NeverSet(ss: seq<Setting>, name: string)
    ensures LastSet(Strg, ss, name) == Unset <==> forall s :: s in ss && s.value.Some? ==> !Same(s.item, name)
    ensures LastSet(Strg, ss, name) != Unset ==> LastSet(Strg, ss, name).Str?
    decreases |ss|
  {
    hide Same;
    if ss != [] {
      var n := |ss| - 1;
      assert ss == ss[..n] + [ss[n]];
      NeverSet(ss[..n], name);
    }
  }

  lemma NameMeaning(section: seq<Setting>, name: string)
    requires name == "label" || name == "image"
    ensures Meaning(CF_IMAGE, section, name) == LastSet(Strg, section, name)
  {
    hide LastSet;
    assert Same(CF_IMAGE[0].name, "image") && Same(CF_IMAGE[1].name, "label");
  }

  lemma NoName(sections: seq<seq<Setting>>, item: string, k: nat)
    requires k < |sections|
    ensures SectionViews(sections, item)[k].Name().Err? <==> Nameless(sections[k])
  {
    hide Meaning, LastSet, CF_IMAGE, Same;
    NameMeaning(sections[k], "label");
    NameMeaning(sections[k], "image");
    NeverSet(sections[k], "label");
    NeverSet(sections[k], "image");
  }

  /** When the loader follows a null pointer: on an accepted list a question about
      an image fails exactly when the first section that is nameless or answers to
      the image is nameless. */
  lemma NamelessFails(ss: seq<Setting>, image: string, item: string)
    requires After(NO_SETTINGS, ss).1
    ensures var views := SectionViews(Sections(ss), item);
            GetStrg(After(NO_SETTINGS, ss).0, Some(image), item) == Err(Undefined)
            <==> exists k :: 0 <= k < |views| && Nameless(Sections(ss)[k])
                             && forall j :: 0 <= j < k ==> !Nameless(Sections(ss)[j]) && !views[j].Answers(image)
  {
    hide After, GetStrg, Meaning, Globals, Sections, Nameless, Ask;
    ConfigMeaning(ss, Some(image), item);
    var views := SectionViews(Sections(ss), item);
    AskFails(views, image, Meaning(CF_OPTIONS, Globals(ss), item));
    forall k | 0 <= k < |views| ensures views[k].Name().Err? <==> Nameless(Sections(ss)[k]) {
      NoName(Sections(ss), item, k);
    }
    hide SectionViews;
    forall k | 0 <= k < |views|
      ensures Trips(views, image, k) <==>
                && Nameless(Sections(ss)[k])
                && forall j :: 0 <= j < k ==> !Nameless(Sections(ss)[j]) && !views[j].Answers(image)
    {
    }
  }

  /** cfg_get_default. */
  function Default(ts: Tables): Result<Value> {
    var v := Lookup(ts.options, "default");
    if v != Unset || ts.images == [] then Ok(v)
    else
      var name :- TableViews(ts.images, "default")[0].Name();
      Ok(Str(name))
  }

  /** So does the default image, when no default is set and the first section is nameless. */
  lemma DefaultMeans(ss: seq<Setting>)
    requires After(NO_SETTINGS, ss).1
    ensures var d := Default(After(NO_SETTINGS, ss).0);
            var v := Meaning(CF_OPTIONS, Globals(ss), "default");
            if v != Unset || Sections(ss) == [] then d == Ok(v)
            else
              && (d == Err(Undefined) <==> Nameless(Sections(ss)[0]))
              && d == (var name :- SectionViews(Sections(ss), "default")[0].Name(); Ok(Str(name)))
  {
    hide After, Meaning, Lookup, Globals, Sections, Nameless, Holds, CF_OPTIONS, CF_IMAGE,
      NO_SETTINGS, TableViews, SectionViews, Basename;
    var ts := After(NO_SETTINGS, ss).0;
    AfterRight(ss);
    HoldsMeans(ts.options, CF_OPTIONS, Globals(ss), "default");
    if ts.images != [] {
      ViewsMean(ts, ss, "default", 0);
      NoName(Sections(ss), "default", 0);
    }
  }

  // ----- Parsing and setting together -----

  /** cfg_parse: the tables, and whether all of the text was accepted. */
  function Parse(st: Stream, ts: Tables): (Tables, bool)
    decreases Size(st)
  {
    NextAdvances(st);
    match NextItem(st)
    case (Done, _) => (ts, true)
    case (Failed, _) => (ts, false)
    case (Item(s), st') => var (t, ok) := Apply(ts, s); if ok then Parse(st', t) else (t, false)
  }

  lemma {:induction false} AfterCons(ts: Tables, s: Setting, ss: seq<Setting>)
    ensures var (t, ok) := Apply(ts, s);
            After(ts, [s] + ss) == if ok then After(t, ss) else (t, false)
    decreases |ss|
  {
    hide Apply;
    if ss == [] {
      assert [s] + ss == [s] && [s][..0] == [];
    } else {
      var n := |ss| - 1;
      assert ([s] + ss)[..|ss|] == [s] + ss[..n];
      AfterCons(ts, s, ss[..n]);
    }
  }

  /** A text sets what its settings set, one after the other, up to the first
      syntax error or unknown item; it is accepted if there is neither. */
  lemma {:induction false} ParseIsAfter(st: Stream, ts: Tables)
    ensures var (ss, clean) := ReadAll(st);
            Parse(st, ts) == (After(ts, ss).0, clean && After(ts, ss).1)
    decreases Size(st)
  {
    hide Apply, NextItem;
    NextAdvances(st);
    var (n, st') := NextItem(st);
    if n.Item? {
      AfterCons(ts, n.setting, ReadAll(st').0);
      ParseIsAfter(st', Apply(ts, n.setting).0);
    }
  }

  /** The item cfg_set gave back, if any, comes before the text. */
  function ParseHeld(held: Option<Setting>, st: Stream, ts: Tables): (Tables, bool) {
    if held.None? then Parse(st, ts)
    else var (t, ok) := Apply(ts, held.value); if ok then Parse(st, t) else (t, false)
  }

  /** The text "image" alone is accepted, and then every question about an image
      and the default follow a null pointer. */
  lemma ImageAlone(text: string, image: string, item: string)
    requires text == "image"
    ensures var (ts, ok) := Parse(Stream(None, text), NO_SETTINGS);
            ok && GetStrg(ts, Some(image), item) == Default(ts) == Err(Undefined)
  {
    hide Parse, ReadAll, After, GetStrg, Default, Sections, Globals, Meaning, Known, NO_SETTINGS, CF_OPTIONS, CF_IMAGE;
    var s := Setting(text, None);
    OneFlag(text);
    ParseIsAfter(Stream(None, text), NO_SETTINGS);
    OneSection(s);
    AcceptedIsKnown([s]);
    NamelessFails([s], image, item);
    DefaultMeans([s]);
  }

  /** A text that is one token reads as one flag. */
  lemma OneFlag(text: string)
    requires BareWritable(text) && forall i :: 0 <= i < |text| ==> Ordinary(text[i])
    ensures ReadAll(Stream(None, text)) == ([Setting(text, None)], true)
  {
    hide GetToken, EscapeBare;
    OrdinaryText(text);
    assert text + "" == text && Ordinary(text[0]);
    BareToken(text, "");
    EqualsToken("");
    var st, end := Stream(None, text), Stream(None, "");
    assert NextItem(st) == (Item(Setting(text, None)), end);
    assert ReadAll(end) == ([], true);
    assert [Setting(text, None)] + [] == [Setting(text, None)];
  }

  lemma OneSection(s: Setting)
    requires Same(s.item, "image")
    ensures Sections([s]) == [[s]] && Globals([s]) == [] && Known([s], 0)
    ensures Meaning(CF_OPTIONS, [], "default") == Unset
  {
    hide CF_OPTIONS;
    assert [s][..0] == [] && IsImage(s);
    assert Same(CF_IMAGE[0].name, s.item);
  }

  /** Main result, on texts: writing settings with quotes and parsing the text gives
      a configuration that answers every question as the settings mean it. */
  lemma WrittenMeans(ss: seq<Setting>, image: Option<string>, item: string)
    requires forall s :: s in ss ==> WritableSetting(s)
    requires forall i :: 0 <= i < |ss| ==> Known(ss, i)
    ensures var (ts, ok) := Parse(Stream(None, Write(ss)), NO_SETTINGS);
            var global := Meaning(CF_OPTIONS, Globals(ss), item);
            && ok
            && GetStrg(ts, image, item)
               == if image.None? then Ok(global) else Ask(SectionViews(Sections(ss), item), image.value, global)
  {
    hide WritableSetting, ReadAll, Write, Known, Parse, After, GetStrg, Meaning, Ask, Globals, Sections,
      CF_OPTIONS, CF_IMAGE, NO_SETTINGS;
    ItemsRoundTrip(ss);
    ParseIsAfter(Stream(None, Write(ss)), NO_SETTINGS);
    AcceptedIsKnown(ss);
    ConfigMeaning(ss, image, item);
  }
}
