/** The files saveAllGridsAsZip (script.js:184-264) puts into the archive:
    per grid `icon-GxG.svg` and `icon-GxG.png`, a fixed alias for five sizes,
    and the manifest and browserconfig files. The archive is the map from
    file name to content that the sequence of zip.file calls leaves behind. */
module Packaging {
  import opened Wrappers
  import opened Decimal
  import Pixels
  import Svg
  import Config

  /** What a file of the archive holds. */
  datatype Content =
    | SvgCode(doc: Svg.SvgDoc)   // the serialised SVG of one grid
    | PngRender(gridSize: nat)   // the html2canvas rendering of that grid's container
    | ManifestJson
    | BrowserConfigXml

  /** One zip.file(name, content) call. */
  datatype FileWrite = FileWrite(name: string, content: Content)

  /** `icon-${key}x${key}.${ext}` */
  function IconName(key: string, ext: string): string {
    "icon-" + key + "x" + key + "." + ext
  }

  /** The extra file name of each size that has one. */
  const AliasTable: map<nat, string> := map[
    32 := "favicon.ico",
    150 := "mstile-150x150.png",
    180 := "apple-touch-icon.png",
    192 := "icon-192.png",
    256 := "safari-pinned-tab.svg"]

  /** The alias that carries the SVG code rather than the PNG. */
  const SvgAliasSize: nat := 256

  /** The five `if (parseInt(gridSize, 10) === n)` tests of the PNG callback:
      a copy of the PNG, or for 256 of the SVG, under the alias of the size. */
  function AliasWrites(key: string, svg: Content, png: Content): (ws: seq<FileWrite>)
    ensures var n := ParseInt(key);
            ws == if n.Some? && n.value in AliasTable
                  then [FileWrite(AliasTable[n.value], if n.value == SvgAliasSize then svg else png)]
                  else []
  {
    var n := ParseInt(key);
    (if n == Some(32) then [FileWrite("favicon.ico", png)] else [])
    + (if n == Some(150) then [FileWrite("mstile-150x150.png", png)] else [])
    + (if n == Some(180) then [FileWrite("apple-touch-icon.png", png)] else [])
    + (if n == Some(192) then [FileWrite("icon-192.png", png)] else [])
    + (if n == Some(256) then [FileWrite("safari-pinned-tab.svg", svg)] else [])
  }

  /** The property key of a grid in gridContainers. */
  function Key(e: Config.GridEntry): string {
    DecimalString(e.gridSize)
  }

  predicate AllWellFormed(es: seq<Config.GridEntry>) {
    forall i :: 0 <= i < |es| ==> Config.WellFormed(es[i])
  }

  /** The SVG written synchronously for each grid, in entry order. */
  function SvgWrites(es: seq<Config.GridEntry>): (ws: seq<FileWrite>)
    requires AllWellFormed(es)
    ensures |ws| == |es|
  {
    seq(|es|, i requires 0 <= i < |es| =>
      FileWrite(IconName(Key(es[i]), "svg"), SvgCode(Config.EntrySvg(es[i]))))
  }

  const FixedWrites: seq<FileWrite> :=
    [FileWrite("manifest.json", ManifestJson), FileWrite("browserconfig.xml", BrowserConfigXml)]

  /** The writes of one PNG callback: the PNG, then the alias if any. */
  function PngWrites(e: Config.GridEntry): (ws: seq<FileWrite>)
    requires Config.WellFormed(e)
    ensures 1 <= |ws| <= 2 && ws[0] == FileWrite(IconName(Key(e), "png"), PngRender(e.gridSize))
  {
    [FileWrite(IconName(Key(e), "png"), PngRender(e.gridSize))]
      + AliasWrites(Key(e), SvgCode(Config.EntrySvg(e)), PngRender(e.gridSize))
  }

  /** The writes of several groups, one group after the other. */
  function Flatten(groups: seq<seq<FileWrite>>): seq<FileWrite> {
    if |groups| == 0 then []
    else Flatten(groups[..|groups| - 1]) + groups[|groups| - 1]
  }

  lemma {:induction false} FlattenMember(groups: seq<seq<FileWrite>>, i: nat, w: FileWrite)
    requires i < |groups| && w in groups[i]
    ensures w in Flatten(groups)
  {
    var n := |groups| - 1;
    if i < n {
      assert groups[..n][i] == groups[i];
      FlattenMember(groups[..n], i, w);
    }
  }

  /** The writes of each grid's PNG callback, in entry order. */
  function PngGroups(es: seq<Config.GridEntry>): (gs: seq<seq<FileWrite>>)
    requires AllWellFormed(es)
    ensures |gs| == |es| && forall i :: 0 <= i < |es| ==> gs[i] == PngWrites(es[i])
  {
    seq(|es|, i requires 0 <= i < |es| => PngWrites(es[i]))
  }

  /** The PNG callbacks of all grids, in entry order. */
  function AllPngWrites(es: seq<Config.GridEntry>): seq<FileWrite>
    requires AllWellFormed(es)
  {
    Flatten(PngGroups(es))
  }

  /** Every zip.file call of saveAllGridsAsZip, in one possible order. */
  function ArchiveWrites(es: seq<Config.GridEntry>): (ws: seq<FileWrite>)
    requires AllWellFormed(es)
    ensures |ws| >= |es| + 2
    ensures forall i :: 0 <= i < |es| ==> ws[i].name == IconName(Key(es[i]), "svg")
    ensures ws[|es|] == FileWrite("manifest.json", ManifestJson)
    ensures ws[|es| + 1] == FileWrite("browserconfig.xml", BrowserConfigXml)
  {
    SvgWrites(es) + FixedWrites + AllPngWrites(es)
  }

  /** The archive the writes leave: a later write to a name replaces an
      earlier one. */
  function ApplyWrites(ws: seq<FileWrite>): (m: map<string, Content>)
    ensures forall i :: 0 <= i < |ws| ==> ws[i].name in m
    ensures forall name :: name in m ==> exists i :: 0 <= i < |ws| && ws[i].name == name
  {
    if |ws| == 0 then map[]
    else
      var n := |ws| - 1;
      ApplyWrites(ws[..n])[ws[n].name := ws[n].content]
  }

  predicate DistinctNames(ws: seq<FileWrite>) {
    forall i, j :: 0 <= i < j < |ws| ==> ws[i].name != ws[j].name
  }

  lemma DistinctPrefix(ws: seq<FileWrite>, n: nat)
    requires DistinctNames(ws) && n <= |ws|
    ensures DistinctNames(ws[..n])
  {
    assert forall i :: 0 <= i < n ==> ws[..n][i] == ws[i];
  }

  /** The last write of a list with distinct names finds its name unused. */
  lemma FreshLast(ws: seq<FileWrite>)
    requires DistinctNames(ws) && |ws| > 0
    ensures ws[|ws| - 1].name !in ApplyWrites(ws[..|ws| - 1])
  {
    var n := |ws| - 1;
    var init := ws[..n];
    assert forall i :: 0 <= i < n ==> init[i].name == ws[i].name != ws[n].name;
  }

  /** With distinct names every write survives with its content. */
  lemma {:induction false} ApplyDistinct(ws: seq<FileWrite>)
    requires DistinctNames(ws)
    ensures forall i :: 0 <= i < |ws| ==> ApplyWrites(ws)[ws[i].name] == ws[i].content
  {
    if |ws| > 0 {
      var n := |ws| - 1;
      var init := ws[..n];
      DistinctPrefix(ws, n);
      ApplyDistinct(init);
      forall i | 0 <= i < n
        ensures ApplyWrites(ws)[ws[i].name] == ws[i].content
      {
        assert init[i] == ws[i];
      }
    }
  }

  /** With distinct names the archive holds one file per write. */
  lemma {:induction false} ApplyDistinctSize(ws: seq<FileWrite>)
    requires DistinctNames(ws)
    ensures |ApplyWrites(ws).Keys| == |ws|
  {
    if |ws| > 0 {
      var n := |ws| - 1;
      DistinctPrefix(ws, n);
      ApplyDistinctSize(ws[..n]);
      FreshLast(ws);
      assert ApplyWrites(ws).Keys == ApplyWrites(ws[..n]).Keys + {ws[n].name};
    }
  }

  /** With distinct names the archive holds each write under its name. */
  lemma Lookup(ws: seq<FileWrite>, w: FileWrite)
    requires DistinctNames(ws) && w in ws
    ensures w.name in ApplyWrites(ws) && ApplyWrites(ws)[w.name] == w.content
  {
    ApplyDistinct(ws);
    var i :| 0 <= i < |ws| && ws[i] == w;
  }

  /** With distinct names the order of the writes does not matter, so the
      unspecified order in which the PNG promises resolve leaves the same
      archive. */
  lemma OrderFree(ws1: seq<FileWrite>, ws2: seq<FileWrite>)
    requires DistinctNames(ws1) && DistinctNames(ws2)
    requires forall w :: w in ws1 <==> w in ws2
    ensures ApplyWrites(ws1) == ApplyWrites(ws2)
  {
    var m1, m2 := ApplyWrites(ws1), ApplyWrites(ws2);
    forall name | name in m1
      ensures name in m2 && m2[name] == m1[name]
    {
      var i :| 0 <= i < |ws1| && ws1[i].name == name;
      Lookup(ws1, ws1[i]);
      Lookup(ws2, ws1[i]);
    }
    forall name | name in m2
      ensures name in m1
    {
      var j :| 0 <= j < |ws2| && ws2[j].name == name;
      assert ws2[j] in ws1;
    }
  }

  /** The kinds of file in the archive. */
  datatype Kind = SvgIcon | PngIcon | AliasFile | ManifestFile | BrowserConfigFile

  /** One file of the archive: its kind and the grid size it belongs to
      (0 for the two fixed files). */
  datatype Tag = Tag(size: nat, kind: Kind)

  predicate ValidTag(t: Tag) {
    match t.kind
    case AliasFile => t.size in AliasTable
    case ManifestFile => t.size == 0
    case BrowserConfigFile => t.size == 0
    case _ => true
  }

  /** The name saveAllGridsAsZip gives each file. */
  function NameOf(t: Tag): string
    requires ValidTag(t)
  {
    match t.kind
    case SvgIcon => IconName(DecimalString(t.size), "svg")
    case PngIcon => IconName(DecimalString(t.size), "png")
    case AliasFile => AliasTable[t.size]
    case ManifestFile => "manifest.json"
    case BrowserConfigFile => "browserconfig.xml"
  }

  /** Reads a file name back into the file it names. */
  function Classify(name: string): Option<Tag> {
    if name == "manifest.json" then Some(Tag(0, ManifestFile))
    else if name == "browserconfig.xml" then Some(Tag(0, BrowserConfigFile))
    else if name == "favicon.ico" then Some(Tag(32, AliasFile))
    else if name == "mstile-150x150.png" then Some(Tag(150, AliasFile))
    else if name == "apple-touch-icon.png" then Some(Tag(180, AliasFile))
    else if name == "icon-192.png" then Some(Tag(192, AliasFile))
    else if name == "safari-pinned-tab.svg" then Some(Tag(256, AliasFile))
    else if |name| >= 9 && name[..5] == "icon-" then
      match ParseInt(name[5..])
      case None => None
      case Some(g) => Some(Tag(g, if name[|name| - 4..] == ".svg" then SvgIcon else PngIcon))
    else None
  }

  /** The parts of an icon name: "icon-", the key, then "x" and the rest. */
  lemma IconNameShape(k: string, ext: string)
    requires |ext| == 3
    ensures var name := IconName(k, ext);
            && |name| == 10 + 2 * |k|
            && name[..5] == "icon-" && name[5..] == k + ("x" + k + "." + ext)
            && name[5 + |k|] == 'x'
            && name[|name| - 4..] == "." + ext
  {
    var rest := "x" + k + "." + ext;
    assert IconName(k, ext) == "icon-" + (k + rest);
  }

  /** An icon name has even length, starts with 'i' and has 'x' right after
      the key, which tells it apart from every fixed name. */
  lemma IconNotFixed(k: string, ext: string)
    requires |ext| == 3 && |k| > 0 && AllDigits(k)
    ensures var name := IconName(k, ext);
            && name != "manifest.json" && name != "browserconfig.xml"
            && name != "favicon.ico" && name != "mstile-150x150.png"
            && name != "apple-touch-icon.png" && name != "icon-192.png"
            && name != "safari-pinned-tab.svg"
  {
    var name := IconName(k, ext);
    IconNameShape(k, ext);
    assert name[0] == "icon-"[0] == 'i';
    if |k| == 1 {
      assert "icon-192.png"[6] == '9';
    }
  }

  /** icon-GxG.svg and icon-GxG.png read back as size G and their kind. */
  lemma ClassifyIcon(g: nat, ext: string)
    requires ext == "svg" || ext == "png"
    ensures Classify(IconName(DecimalString(g), ext)) == Some(Tag(g, if ext == "svg" then SvgIcon else PngIcon))
  {
    var k := DecimalString(g);
    var rest := "x" + k + "." + ext;
    var name := IconName(k, ext);
    IconNameShape(k, ext);
    IconNotFixed(k, ext);
    assert rest[0] == 'x';
    ParseDecimalString(g, rest);
    if ext == "png" {
      assert ("." + ext)[1] == 'p' && ".svg"[1] == 's';
    }
  }

  lemma ClassifyNameOf(t: Tag)
    requires ValidTag(t)
    ensures Classify(NameOf(t)) == Some(t)
  {
    match t.kind
    case SvgIcon => ClassifyIcon(t.size, "svg");
    case PngIcon => ClassifyIcon(t.size, "png");
    case AliasFile =>
    case ManifestFile =>
    case BrowserConfigFile =>
  }

  /** Two different files never get the same name. */
  lemma NameOfInjective(t1: Tag, t2: Tag)
    requires ValidTag(t1) && ValidTag(t2)
    ensures NameOf(t1) == NameOf(t2) <==> t1 == t2
  {
    ClassifyNameOf(t1);
    ClassifyNameOf(t2);
  }

  /** The files of one PNG callback: the PNG, then the alias if the size
      has one. */
  function PngTags(gridSize: nat): (ts: seq<Tag>)
    ensures forall i :: 0 <= i < |ts| ==> ValidTag(ts[i])
  {
    [Tag(gridSize, PngIcon)] + (if gridSize in AliasTable then [Tag(gridSize, AliasFile)] else [])
  }

  /** The sizes of the grids, in entry order. */
  function Sizes(es: seq<Config.GridEntry>): (sizes: seq<nat>)
    ensures |sizes| == |es| && forall i :: 0 <= i < |es| ==> sizes[i] == es[i].gridSize
  {
    seq(|es|, i requires 0 <= i < |es| => es[i].gridSize)
  }

  /** The files of the PNG callbacks of grids of the given sizes. */
  function AllPngTags(sizes: seq<nat>): (ts: seq<Tag>)
    ensures forall i :: 0 <= i < |ts| ==> ValidTag(ts[i])
  {
    if |sizes| == 0 then []
    else AllPngTags(sizes[..|sizes| - 1]) + PngTags(sizes[|sizes| - 1])
  }

  /** The files of the whole archive, in the order of ArchiveWrites. */
  function ArchiveTags(es: seq<Config.GridEntry>): (ts: seq<Tag>)
    ensures forall i :: 0 <= i < |ts| ==> ValidTag(ts[i])
  {
    seq(|es|, i requires 0 <= i < |es| => Tag(es[i].gridSize, SvgIcon))
      + [Tag(0, ManifestFile), Tag(0, BrowserConfigFile)]
      + AllPngTags(Sizes(es))
  }

  /** Write i is the file ts[i] under its name. */
  predicate Named(ws: seq<FileWrite>, ts: seq<Tag>) {
    |ws| == |ts| && forall i :: 0 <= i < |ws| ==> ValidTag(ts[i]) && ws[i].name == NameOf(ts[i])
  }

  lemma NamedConcat(a: seq<FileWrite>, ta: seq<Tag>, b: seq<FileWrite>, tb: seq<Tag>)
    requires Named(a, ta) && Named(b, tb)
    ensures Named(a + b, ta + tb)
  {
    forall i | |a| <= i < |a| + |b|
      ensures (a + b)[i] == b[i - |a|] && (ta + tb)[i] == tb[i - |a|]
    {
    }
  }

  /** The PNG callback of a grid writes the PNG icon and, for the five alias
      sizes, the alias: parseInt reads the key back as the grid size. */
  lemma PngWritesNamed(e: Config.GridEntry)
    requires Config.WellFormed(e)
    ensures Named(PngWrites(e), PngTags(e.gridSize))
  {
    var g := e.gridSize;
    ParseDecimalString(g, []);
    assert Key(e) + [] == Key(e);
    var ws, ts := PngWrites(e), PngTags(g);
    var alias := AliasWrites(Key(e), SvgCode(Config.EntrySvg(e)), PngRender(g));
    assert ws == [ws[0]] + alias;
    assert ts[0] == Tag(g, PngIcon);
    if g in AliasTable {
      assert alias[0].name == AliasTable[g] == NameOf(ts[1]);
    } else {
      assert alias == [];
    }
  }

  lemma {:induction false} AllPngWritesNamed(es: seq<Config.GridEntry>)
    requires AllWellFormed(es)
    ensures Named(AllPngWrites(es), AllPngTags(Sizes(es)))
  {
    if |es| > 0 {
      var n := |es| - 1;
      assert Sizes(es)[..n] == Sizes(es[..n]);
      assert PngGroups(es)[..n] == PngGroups(es[..n]);
      AllPngWritesNamed(es[..n]);
      PngWritesNamed(es[n]);
      NamedConcat(AllPngWrites(es[..n]), AllPngTags(Sizes(es[..n])), PngWrites(es[n]), PngTags(es[n].gridSize));
    }
  }

  lemma ArchiveNamed(es: seq<Config.GridEntry>)
    requires AllWellFormed(es)
    ensures Named(ArchiveWrites(es), ArchiveTags(es))
  {
    var sw := SvgWrites(es);
    var st := seq(|es|, i requires 0 <= i < |es| => Tag(es[i].gridSize, SvgIcon));
    var ft := [Tag(0, ManifestFile), Tag(0, BrowserConfigFile)];
    assert Named(sw, st);
    assert Named(FixedWrites, ft);
    NamedConcat(sw, st, FixedWrites, ft);
    AllPngWritesNamed(es);
    NamedConcat(sw + FixedWrites, st + ft, AllPngWrites(es), AllPngTags(Sizes(es)));
  }

  predicate DistinctTags(ts: seq<Tag>) {
    forall i, j :: 0 <= i < j < |ts| ==> ts[i] != ts[j]
  }

  predicate DistinctSizes(es: seq<Config.GridEntry>) {
    forall i, j :: 0 <= i < j < |es| ==> es[i].gridSize != es[j].gridSize
  }

  lemma {:induction false} AllPngTagsDistinct(sizes: seq<nat>)
    requires forall i, j :: 0 <= i < j < |sizes| ==> sizes[i] != sizes[j]
    ensures var ts := AllPngTags(sizes);
            && DistinctTags(ts)
            && forall i :: 0 <= i < |ts| ==> ts[i].size in sizes && ts[i].kind in {PngIcon, AliasFile}
  {
    if |sizes| > 0 {
      var n := |sizes| - 1;
      var init := sizes[..n];
      AllPngTagsDistinct(init);
      var a, b := AllPngTags(init), PngTags(sizes[n]);
      assert sizes[n] !in init;
      forall i | |a| <= i < |a| + |b|
        ensures (a + b)[i] == b[i - |a|]
      {
      }
    }
  }

  lemma ArchiveTagsDistinct(es: seq<Config.GridEntry>)
    requires DistinctSizes(es)
    ensures DistinctTags(ArchiveTags(es))
  {
    AllPngTagsDistinct(Sizes(es));
    var st := seq(|es|, i requires 0 <= i < |es| => Tag(es[i].gridSize, SvgIcon));
    var ft := [Tag(0, ManifestFile), Tag(0, BrowserConfigFile)];
    var pt := AllPngTags(Sizes(es));
    var ts := st + ft + pt;
    forall i, j | 0 <= i < j < |ts|
      ensures ts[i] != ts[j]
    {
      if j >= |st| + 2 && i < |st| + 2 {
        assert ts[j] == pt[j - |st| - 2];
      } else if j >= |st| + 2 {
        assert ts[i] == pt[i - |st| - 2] && ts[j] == pt[j - |st| - 2];
      }
    }
  }

  /** For grids of pairwise distinct sizes no zip.file call overwrites
      another. */
  lemma ArchiveNamesDistinct(es: seq<Config.GridEntry>)
    requires AllWellFormed(es) && DistinctSizes(es)
    ensures DistinctNames(ArchiveWrites(es))
  {
    var ws, ts := ArchiveWrites(es), ArchiveTags(es);
    ArchiveNamed(es);
    ArchiveTagsDistinct(es);
    forall i, j | 0 <= i < j < |ws|
      ensures ws[i].name != ws[j].name
    {
      NameOfInjective(ts[i], ts[j]);
    }
  }

  /** The archive saveAllGridsAsZip builds from the grids of one upload. */
  function Archive(canvases: seq<Pixels.Image>): (a: map<string, Content>)
    requires Config.CanvasesFit(canvases)
    ensures "manifest.json" in a && a["manifest.json"] == ManifestJson
    ensures "browserconfig.xml" in a && a["browserconfig.xml"] == BrowserConfigXml
  {
    var es := Config.BuildAll(canvases);
    var ws := ArchiveWrites(es);
    BuiltGrids(canvases);
    ArchiveNamesDistinct(es);
    Lookup(ws, ws[|es|]);
    Lookup(ws, ws[|es| + 1]);
    ApplyWrites(ws)
  }

  /** The grids of one upload have the configured sizes, which differ. */
  lemma BuiltGrids(canvases: seq<Pixels.Image>)
    requires Config.CanvasesFit(canvases)
    ensures var es := Config.BuildAll(canvases);
            AllWellFormed(es) && DistinctSizes(es) && Sizes(es) == Config.GridSizes
  {
    Config.TablesAgree();
  }

  lemma PngWriteIn(es: seq<Config.GridEntry>, i: nat, w: FileWrite)
    requires AllWellFormed(es) && i < |es| && w in PngWrites(es[i])
    ensures w in AllPngWrites(es)
  {
    FlattenMember(PngGroups(es), i, w);
  }

  /** The alias write of the PNG callback of a grid whose size has one. */
  lemma AliasWriteOf(e: Config.GridEntry)
    requires Config.WellFormed(e) && e.gridSize in AliasTable
    ensures var g := e.gridSize;
            |PngWrites(e)| == 2 && PngWrites(e)[1] == FileWrite(AliasTable[g],
              if g == SvgAliasSize then SvgCode(Config.EntrySvg(e)) else PngRender(g))
  {
    var g := e.gridSize;
    ParseDecimalString(g, []);
    assert Key(e) + [] == Key(e);
  }

  /** Every grid of an upload is in the archive as icon-GxG.svg holding its
      SVG code and as icon-GxG.png holding its rendering. */
  lemma ArchiveIcons(canvases: seq<Pixels.Image>, i: nat)
    requires Config.CanvasesFit(canvases) && i < |Config.GridSizes|
    ensures var e := Config.BuildAll(canvases)[i];
            var a := Archive(canvases);
            && IconName(DecimalString(Config.GridSizes[i]), "svg") in a
            && a[IconName(DecimalString(Config.GridSizes[i]), "svg")] == SvgCode(Config.EntrySvg(e))
            && IconName(DecimalString(Config.GridSizes[i]), "png") in a
            && a[IconName(DecimalString(Config.GridSizes[i]), "png")] == PngRender(Config.GridSizes[i])
  {
    var es := Config.BuildAll(canvases);
    var ws := ArchiveWrites(es);
    BuiltGrids(canvases);
    ArchiveNamesDistinct(es);
    assert ws[i] == SvgWrites(es)[i];
    Lookup(ws, SvgWrites(es)[i]);
    var w := PngWrites(es[i])[0];
    PngWriteIn(es, i, w);
    Lookup(ws, w);
  }

  /** Where in the size table an alias size sits. */
  function AliasIndex(g: nat): (i: nat)
    requires g in AliasTable
    ensures i < |Config.GridSizes| && Config.GridSizes[i] == g
  {
    if g == 32 then 1 else if g == 150 then 4 else if g == 180 then 5 else if g == 192 then 6 else 7
  }

  /** The five aliases: favicon.ico, mstile-150x150.png, apple-touch-icon.png
      and icon-192.png copy the PNG of their size, safari-pinned-tab.svg
      copies the SVG of size 256. */
  lemma ArchiveAliases(canvases: seq<Pixels.Image>, g: nat)
    requires Config.CanvasesFit(canvases) && g in AliasTable
    ensures var a := Archive(canvases);
            && AliasTable[g] in a
            && IconName(DecimalString(g), "svg") in a
            && a[AliasTable[g]] == if g == SvgAliasSize then a[IconName(DecimalString(g), "svg")] else PngRender(g)
  {
    var es := Config.BuildAll(canvases);
    var ws := ArchiveWrites(es);
    var i := AliasIndex(g);
    BuiltGrids(canvases);
    ArchiveNamesDistinct(es);
    ArchiveIcons(canvases, i);
    var e := es[i];
    AliasWriteOf(e);
    var alias := PngWrites(e)[1];
    PngWriteIn(es, i, alias);
    Lookup(ws, alias);
  }

  /** The archive holds 25 files: two icons for each of the nine sizes, the
      five aliases, the manifest and the browserconfig file. */
  lemma ArchiveFileCount(canvases: seq<Pixels.Image>)
    requires Config.CanvasesFit(canvases)
    ensures |Archive(canvases).Keys| == 25
  {
    var es := Config.BuildAll(canvases);
    BuiltGrids(canvases);
    ArchiveNamesDistinct(es);
    ApplyDistinctSize(ArchiveWrites(es));
    ArchiveNamed(es);
    GridPngTagCount();
  }

  lemma PngTagsStep(sizes: seq<nat>, k: nat)
    requires k < |sizes|
    ensures |AllPngTags(sizes[..k + 1])| == |AllPngTags(sizes[..k])| + if sizes[k] in AliasTable then 2 else 1
  {
    assert sizes[..k + 1][..k] == sizes[..k];
  }

  lemma PngTagsOfFirstThree()
    ensures |AllPngTags(Config.GridSizes[..3])| == 4
  {
    var s := Config.GridSizes;
    assert |AllPngTags(s[..1])| == 1 by { PngTagsStep(s, 0); }
    assert |AllPngTags(s[..2])| == 3 by { PngTagsStep(s, 1); }
    PngTagsStep(s, 2);
  }

  lemma PngTagsOfFirstSix()
    ensures |AllPngTags(Config.GridSizes[..6])| == 9
  {
    var s := Config.GridSizes;
    PngTagsOfFirstThree();
    assert |AllPngTags(s[..4])| == 5 by { PngTagsStep(s, 3); }
    assert |AllPngTags(s[..5])| == 7 by { PngTagsStep(s, 4); }
    PngTagsStep(s, 5);
  }

  /** Five of the nine sizes have an alias. */
  lemma GridPngTagCount()
    ensures |AllPngTags(Config.GridSizes)| == 14
  {
    var s := Config.GridSizes;
    PngTagsOfFirstSix();
    assert |AllPngTags(s[..7])| == 11 by { PngTagsStep(s, 6); }
    assert |AllPngTags(s[..8])| == 13 by { PngTagsStep(s, 7); }
    PngTagsStep(s, 8);
    assert s[..9] == s;
  }
}
