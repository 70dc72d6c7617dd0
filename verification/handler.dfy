/**
 * `ImageHandler`: the show pass over a view's image links, and hiding and
 * closing. The per-view state is the set of tracked phantoms and the cache
 * of downloaded image bytes; the host's side is the effect log.
 *
 * The pass is modelled twice, selected by `Variant`: `AsWritten` follows the
 * code, `Corrected` differs in the two places where the code misbehaves
 * (an `erase_phantoms(key)` that also removes the phantom just added for
 * that key, and a `TypeError` on a JPEG whose size could not be read).
 */
module Handler {
  import opened Wrappers
  import opened Bytes
  import opened ImageSize
  import Regions
  import ImgAttr
  import opened Sizing
  import opened Links
  import opened Phantoms
  import Text

  type ViewId = int

  /** What the pass reads from a view: its id, text, the link regions the syntax highlighter found, and its file names. */
  datatype View = View(id: ViewId, text: string, links: seq<Regions.Region>, fileName: Option<string>, projectFile: Option<string>)

  /** The outside world: library path functions, the network, the file system and the base64 encoder. */
  datatype Env = Env(
    lib: PathLib,
    fetch: string -> Option<seq<Byte>>,     // urlopen(url).read(), None when either raises
    readFile: string -> Option<seq<Byte>>,  // open(path, 'rb') contents, None when it raises
    base64: seq<Byte> -> string)            // base64.encodestring(data).decode('ascii')

  /** The arguments of `show_images`. */
  datatype Options = Options(maxWidth: Option<int>, showLocal: bool, showRemote: bool, basePath: Option<string>)

  /** `ImageHandler.phantoms` and `ImageHandler.urldata`; a missing view reads as empty. */
  datatype State = State(phantoms: map<ViewId, set<Phantom>>, urldata: map<ViewId, map<string, seq<Byte>>>)

  function Tracked(st: State, v: ViewId): set<Phantom>
  {
    if v in st.phantoms then st.phantoms[v] else {}
  }

  function CacheOf(st: State, v: ViewId): map<string, seq<Byte>>
  {
    if v in st.urldata then st.urldata[v] else map[]
  }

  /** Write one view's entries back, dropping an entry that became empty. */
  function Store(st: State, v: ViewId, tracked: set<Phantom>, cache: map<string, seq<Byte>>): (r: State)
    ensures Tracked(r, v) == tracked && CacheOf(r, v) == cache
    ensures forall w :: w != v ==> Tracked(r, w) == Tracked(st, w) && CacheOf(r, w) == CacheOf(st, w)
  {
    State(
      if tracked == {} then st.phantoms - {v} else st.phantoms[v := tracked],
      if cache == map[] then st.urldata - {v} else st.urldata[v := cache])
  }

  /** The two versions of the pass. */
  datatype Variant = AsWritten | Corrected

  /** An image ready to show: its `src`, its measured size, and the cache entry to write if it gets added. */
  datatype Image = Image(src: string, measure: Measure, entry: Option<(string, seq<Byte>)>)

  /** The outcome of loading one link: the fetch it made, if any, and the image, unless the link is skipped. */
  datatype Load = Load(fetched: seq<Effect>, image: Option<Image>)

  /** `get_image_size` on `data` when it names a type; a raised error or an unknown type skips the link. */
  function Measured(data: seq<Byte>): (r: Option<Measure>)
    ensures r.Some? <==> GetImageSize(data).Returned? && GetImageSize(data).measure.ttype.Some?
    ensures r.Some? ==> r.value == GetImageSize(data).measure
    ensures r.Some? ==> |data| > 0
  {
    match GetImageSize(data)
    case Raised => None
    case Returned(m) => if m.ttype.Some? then Some(m) else None
  }

  const DataPrefix: string := "data:image/"

  /** The inline `data:` URI: type, then the base64 text with its line breaks removed. */
  function DataUri(env: Env, t: ImageType, data: seq<Byte>): (src: string)
    ensures var head := DataPrefix + t.Name() + ";base64,";
      && head <= src && '\n' !in src[|head|..]
      && src[|head|..] == Text.Without(env.base64(data), '\n')
  {
    var head := DataPrefix + t.Name() + ";base64,";
    var body := Text.Without(env.base64(data), '\n');
    assert (head + body)[|head|..] == body;
    head + body
  }

  /** The bytes of a remote image: `urldata[url]` when non-empty, otherwise what the fetch returns. */
  function RemoteData(env: Env, cache: map<string, seq<Byte>>, url: string): (data: Option<seq<Byte>>)
    ensures url in cache && |cache[url]| > 0 ==> data == Some(cache[url])
    ensures !(url in cache && |cache[url]| > 0) ==> data == env.fetch(url)
  {
    if url in cache && |cache[url]| > 0 then Some(cache[url]) else env.fetch(url)
  }

  /** A remote link: the cached bytes when there are any, otherwise a fetch. */
  function LoadRemote(env: Env, cache: map<string, seq<Byte>>, url: string): (l: Load)
    ensures var data := RemoteData(env, cache, url);
      && (l.image.Some? <==> data.Some? && Measured(data.value).Some?)
      && (l.image.Some? ==>
            && Measured(data.value) == Some(l.image.value.measure)
            && l.image.value.src == DataUri(env, l.image.value.measure.ttype.value, data.value)
            && l.image.value.entry == Some((url, data.value)))
    ensures url in cache && |cache[url]| > 0 ==> l.fetched == []
    ensures !(url in cache && |cache[url]| > 0) ==> l.fetched == [Fetch(url)]
    ensures l.image.Some? ==> l.image.value.entry.Some? && l.image.value.entry.value.0 == url
    ensures l.image.Some? && url in cache && |cache[url]| > 0 ==> l.image.value.entry == Some((url, cache[url]))
    ensures l.image.Some? && !(url in cache && |cache[url]| > 0) ==> env.fetch(url).Some? && l.image.value.entry == Some((url, env.fetch(url).value))
  {
    var fetched := if url in cache && |cache[url]| > 0 then [] else [Fetch(url)];
    match RemoteData(env, cache, url)
    case None => Load(fetched, None)
    case Some(d) =>
      match Measured(d)
      case None => Load(fetched, None)
      case Some(m) => Load(fetched, Some(Image(DataUri(env, m.ttype.value, d), m, Some((url, d)))))
  }

  /** A local link: the file's bytes, no fetch and no cache entry. */
  function LoadLocal(env: Env, path: string, uri: string): (l: Load)
    ensures l.fetched == [] && (l.image.Some? ==> l.image.value.entry.None? && l.image.value.src == uri)
    ensures l.image.Some? <==> env.readFile(path).Some? && Measured(env.readFile(path).value).Some?
    ensures l.image.Some? ==> Measured(env.readFile(path).value) == Some(l.image.value.measure)
  {
    match env.readFile(path)
    case None => Load([], None)
    case Some(d) =>
      match Measured(d)
      case None => Load([], None)
      case Some(m) => Load([], Some(Image(uri, m, None)))
  }

  /** A phantom the pass produced, with the index of the link it came from. */
  datatype Found = Found(link: nat, phantom: Phantom)

  function PhantomsOf(found: seq<Found>): (r: seq<Phantom>)
    ensures |r| == |found| && forall i :: 0 <= i < |found| ==> r[i] == found[i].phantom
  {
    seq(|found|, i requires 0 <= i < |found| => found[i].phantom)
  }

  /** The pass's working state for one view. */
  datatype Pass = Pass(tracked: set<Phantom>, cache: map<string, seq<Byte>>, found: seq<Found>, log: seq<Effect>)

  /** A link either lets the pass continue or raises out of it. */
  datatype Step = Continue(pass: Pass) | Abort(pass: Pass)

  /** The sizing step of each variant. */
  function Size(variant: Variant, custom: string, m: Measure, maxWidth: int): (r: Sizing)
    requires maxWidth > 0
    ensures variant.Corrected? ==> r.Sized?
    ensures variant.AsWritten? ==> r == SizeAttr(custom, m.width, m.height, maxWidth)
    ensures SizeAttr(custom, m.width, m.height, maxWidth).Sized? ==> r == SizeAttr(custom, m.width, m.height, maxWidth)
  {
    match variant
    case AsWritten => SizeAttr(custom, m.width, m.height, maxWidth)
    case Corrected =>
      if SizeAttr(custom, m.width, m.height, maxWidth).Sized? then
        FixedAgrees(custom, m.width, m.height, maxWidth);
        Sized(SizeAttrFixed(custom, m.width, m.height, maxWidth))
      else Sized(SizeAttrFixed(custom, m.width, m.height, maxWidth))
  }

  /**
   * Record phantom `p` of link `link` and, unless it is already tracked, add it
   * on the host and write the cache entry. The corrected variant first erases
   * the line's key, so that no older phantom on that line survives.
   */
  function Place(variant: Variant, pass: Pass, link: nat, p: Phantom, anchor: nat, entry: Option<(string, seq<Byte>)>): (r: Pass)
    ensures r.found == pass.found + [Found(link, p)] && p in r.tracked
    ensures p in pass.tracked ==> r == pass.(found := r.found)
    ensures p !in pass.tracked && variant.AsWritten? ==>
      r.tracked == pass.tracked + {p} && r.log == pass.log + [Add(p.key, anchor, p.html)]
    ensures p !in pass.tracked && variant.Corrected? ==>
      r.tracked == pass.tracked - WithKey(pass.tracked, p.key) + {p}
      && r.log == pass.log + [Erase(p.key), Add(p.key, anchor, p.html)]
    ensures p !in pass.tracked && entry.Some? ==> r.cache == pass.cache[entry.value.0 := entry.value.1]
    ensures r.cache != pass.cache ==> p !in pass.tracked && entry.Some? && r.cache == pass.cache[entry.value.0 := entry.value.1]
  {
    var found := pass.found + [Found(link, p)];
    if p in pass.tracked then pass.(found := found)
    else
      var cache := if entry.Some? then pass.cache[entry.value.0 := entry.value.1] else pass.cache;
      match variant
      case AsWritten =>
        Pass(pass.tracked + {p}, cache, found, pass.log + [Add(p.key, anchor, p.html)])
      case Corrected =>
        Pass(pass.tracked - WithKey(pass.tracked, p.key) + {p}, cache, found, pass.log + [Erase(p.key), Add(p.key, anchor, p.html)])
  }

  /** The region lies inside the text and is not empty. */
  predicate Inside(text: string, r: Regions.Region)
  {
    r.a < r.b <= |text|
  }

  /** What one link comes to before the tracked set is touched. */
  datatype Verdict =
    | Skipped                                                           // `continue` before a phantom is built
    | Raises                                                            // the sizing step raised
    | Placed(p: Phantom, anchor: nat, entry: Option<(string, seq<Byte>)>)  // a phantom for the end of the link's line

  datatype Probe = Probe(fetched: seq<Effect>, verdict: Verdict)

  /** A log of fetches only. */
  predicate OnlyFetches(log: seq<Effect>)
  {
    forall e :: e in log ==> e.Fetch?
  }

  /** Where a link points, decided from its text. */
  function TargetOf(env: Env, opts: Options, view: View, r: Regions.Region): (t: Target)
    requires Inside(view.text, r)
    ensures t.Remote? ==> opts.showRemote
    ensures t.Local? ==> opts.showLocal
  {
    Resolve(env.lib, Regions.Substr(view.text, r), opts.showLocal, opts.showRemote, opts.basePath, view.fileName, view.projectFile)
  }

  /** Loading a target: nothing for a skipped link, the cache or a fetch for a remote one, the file for a local one. */
  function LoadTarget(env: Env, cache: map<string, seq<Byte>>, t: Target): (l: Load)
    ensures t.Skip? ==> l == Load([], None)
    ensures l.image.Some? && l.image.value.entry.Some? ==>
      t.Remote? && l.image.value.entry.value.0 == t.url && |l.image.value.entry.value.1| > 0
  {
    match t
    case Skip => Load([], None)
    case Remote(url) => LoadRemote(env, cache, url)
    case Local(path, uri) => LoadLocal(env, path, uri)
  }

  /** The link text, resolved and loaded; the custom attribute or computed size; the key of its line. */
  function Examine(variant: Variant, env: Env, opts: Options, maxWidth: int, view: View, r: Regions.Region, cache: map<string, seq<Byte>>): (pr: Probe)
    requires maxWidth > 0 && Inside(view.text, r)
    ensures var t := TargetOf(env, opts, view, r);
      var l := LoadTarget(env, cache, t);
      var line := Regions.Line(view.text, r);
      && pr.fetched == l.fetched
      && (pr.verdict.Skipped? <==> t.Skip? || l.image.None?)
      && (pr.verdict.Raises? <==>
            l.image.Some? && Size(variant, ImgAttr.CheckImgAttr(view.text[r.a..line.b]), l.image.value.measure, maxWidth).TypeError?)
      && (pr.verdict.Placed? ==>
            && pr.verdict.anchor == line.b
            && pr.verdict.entry == l.image.value.entry
            && pr.verdict.p.html
               == Html(l.image.value.src, Size(variant, ImgAttr.CheckImgAttr(view.text[r.a..line.b]), l.image.value.measure, maxWidth).attr))
    ensures OnlyFetches(pr.fetched) && |pr.fetched| <= 1
    ensures pr.verdict.Placed? && pr.verdict.entry.Some? ==> |pr.verdict.entry.value.1| > 0
    ensures variant.Corrected? ==> !pr.verdict.Raises?
    ensures pr.verdict.Placed? ==>
      && pr.verdict.p.key == KeyFor(pr.verdict.anchor)
      && r.b <= pr.verdict.anchor <= |view.text|
      && (pr.verdict.anchor == |view.text| || view.text[pr.verdict.anchor] == '\n')
      && (forall k :: r.b <= k < pr.verdict.anchor ==> view.text[k] != '\n')
  {
    var load := LoadTarget(env, cache, TargetOf(env, opts, view, r));
    match load.image
    case None => Probe(load.fetched, Skipped)
    case Some(img) =>
      var line := Regions.Line(view.text, r);
      var custom := ImgAttr.CheckImgAttr(view.text[r.a..line.b]);
      match Size(variant, custom, img.measure, maxWidth)
      case TypeError => Probe(load.fetched, Raises)
      case Sized(attr) => Probe(load.fetched, Placed(Phantom(KeyFor(line.b), Html(img.src, attr)), line.b, img.entry))
  }

  /** What a probed link does to the pass: log its fetch, then stop, raise, or place its phantom. */
  function Advance(variant: Variant, pass: Pass, link: nat, pr: Probe): (s: Step)
    ensures pass.log <= s.pass.log
    ensures s.pass.found == pass.found
      || (|s.pass.found| > |pass.found| && s.pass.found == pass.found + [Found(link, s.pass.found[|pass.found|].phantom)])
  {
    var pass1 := pass.(log := pass.log + pr.fetched);
    match pr.verdict
    case Skipped => Continue(pass1)
    case Raises => Abort(pass1)
    case Placed(p, anchor, entry) => Continue(Place(variant, pass1, link, p, anchor, entry))
  }

  /** The loop body for link `link` at region `r`. */
  function ProcessLink(variant: Variant, env: Env, opts: Options, maxWidth: int, view: View, link: nat, r: Regions.Region, pass: Pass): (s: Step)
    requires maxWidth > 0 && Inside(view.text, r)
    ensures variant.Corrected? ==> s.Continue?
  {
    Advance(variant, pass, link, Examine(variant, env, opts, maxWidth, view, r, pass.cache))
  }

  /** Every region lies inside the text. */
  predicate AllInside(text: string, regs: seq<Regions.Region>)
  {
    forall i :: 0 <= i < |regs| ==> Inside(text, regs[i])
  }

  /** How the loop probes link `i` given the cache as it then stands. */
  type Prober = (nat, map<string, seq<Byte>>) -> Probe

  /** A probe's only host calls are fetches. */
  ghost predicate FetchesOnly(probe: Prober)
  {
    forall i, c :: OnlyFetches(probe(i, c).fetched)
  }

  /** No probe raises. */
  ghost predicate NeverRaises(probe: Prober)
  {
    forall i, c :: !probe(i, c).verdict.Raises?
  }

  /** A probe only ever asks to cache non-empty bytes. */
  ghost predicate CachesNonEmpty(probe: Prober)
  {
    forall i, c :: probe(i, c).verdict.Placed? && probe(i, c).verdict.entry.Some? ==> |probe(i, c).verdict.entry.value.1| > 0
  }

  /** The probe of the show pass over the regions `regs` of `view`. */
  function ProbeLinks(variant: Variant, env: Env, opts: Options, maxWidth: int, view: View, regs: seq<Regions.Region>): (probe: Prober)
    requires maxWidth > 0 && AllInside(view.text, regs)
    ensures FetchesOnly(probe) && CachesNonEmpty(probe)
    ensures variant.Corrected? ==> NeverRaises(probe)
    ensures forall i: nat, c :: i < |regs| ==> probe(i, c) == Examine(variant, env, opts, maxWidth, view, regs[i], c)
  {
    (i: nat, c: map<string, seq<Byte>>) =>
      if i < |regs| then Examine(variant, env, opts, maxWidth, view, regs[i], c) else Probe([], Skipped)
  }

  /** `for region in reversed(img_regs)` over links `0 .. k - 1`: link `k - 1` first, link 0 last. */
  function RunLinks(variant: Variant, probe: Prober, k: nat, pass: Pass): (s: Step)
    ensures NeverRaises(probe) ==> s.Continue?
    decreases k
  {
    if k == 0 then Continue(pass)
    else
      match Advance(variant, pass, k - 1, probe(k - 1, pass.cache))
      case Abort(p) => Abort(p)
      case Continue(p) => RunLinks(variant, probe, k - 1, p)
  }

  /**
   * The loop as link `j` comes up (`j < k`): still running with the pass at that
   * point, or stopped by a link to its right that raised.
   */
  function Reach(variant: Variant, probe: Prober, k: nat, pass: Pass, j: nat): (s: Step)
    requires j < k
    ensures s.Continue? ==> RunLinks(variant, probe, k, pass) == RunLinks(variant, probe, j + 1, s.pass)
    ensures s.Abort? ==> RunLinks(variant, probe, k, pass) == s
    decreases k
  {
    if j == k - 1 then Continue(pass)
    else
      match Advance(variant, pass, k - 1, probe(k - 1, pass.cache))
      case Abort(p) => Abort(p)
      case Continue(p) => Reach(variant, probe, k - 1, p, j)
  }

  /** What a show pass leaves behind: the new state, the host calls, whether it raised, and the phantoms it produced. */
  datatype Outcome = Outcome(state: State, log: seq<Effect>, aborted: bool, found: seq<Found>)
  {
    /** The pass's key -> phantom map. */
    function Desired(): map<string, Phantom>
    {
      Phantoms.Desired(PhantomsOf(found))
    }
  }

  /** The view's entries as the show pass starts: nothing found, nothing logged. */
  function Start(st: State, v: ViewId): (p: Pass)
    ensures p.tracked == Tracked(st, v) && p.cache == CacheOf(st, v) && p.found == [] && p.log == []
  {
    Pass(Tracked(st, v), CacheOf(st, v), [], [])
  }

  /** The loop over the merged link regions, last region first. */
  function RunAll(variant: Variant, env: Env, opts: Options, view: View, st: State): (s: Step)
    requires Regions.WellFormed(view.text, view.links)
    ensures variant.Corrected? ==> s.Continue?
  {
    var regs := Regions.MergeRegions(view.text, view.links);
    RunLinks(variant, ProbeLinks(variant, env, opts, EffectiveMaxWidth(opts.maxWidth), view, regs), |regs|, Start(st, view.id))
  }

  /** The erase loop after the last link, and the write-back of the view's entries. */
  ghost function Finish(st: State, v: ViewId, p: Pass): (out: Outcome)
    ensures !out.aborted && out.found == p.found && CacheOf(out.state, v) == p.cache
    ensures forall w :: w != v ==> Tracked(out.state, w) == Tracked(st, w) && CacheOf(out.state, w) == CacheOf(st, w)
  {
    var erased := EraseStale(p.tracked, Phantoms.Desired(PhantomsOf(p.found)), Enumerate(p.tracked));
    Outcome(Store(st, v, erased.0, p.cache), p.log + erased.1, false, p.found)
  }

  /** `ImageHandler.show_images` for `view`, the erase loop visiting the tracked set in set order. */
  ghost function ShowImages(variant: Variant, env: Env, opts: Options, view: View, st: State): (out: Outcome)
    requires Regions.WellFormed(view.text, view.links)
    ensures !opts.showLocal && !opts.showRemote ==> out == Outcome(st, [], false, [])
    ensures variant.Corrected? ==> !out.aborted
    ensures opts.showLocal || opts.showRemote ==> out.found == RunAll(variant, env, opts, view, st).pass.found
    ensures opts.showLocal || opts.showRemote ==> CacheOf(out.state, view.id) == RunAll(variant, env, opts, view, st).pass.cache
    ensures forall w :: w != view.id ==> Tracked(out.state, w) == Tracked(st, w) && CacheOf(out.state, w) == CacheOf(st, w)
  {
    if !opts.showLocal && !opts.showRemote then Outcome(st, [], false, [])
    else
      match RunAll(variant, env, opts, view, st)
      case Abort(p) => Outcome(Store(st, view.id, p.tracked, p.cache), p.log, true, p.found)
      case Continue(p) => Finish(st, view.id, p)
  }

  /** `hide_images` (`_erase_phantoms`): erase every tracked key and forget the view's phantoms; the cache stays. */
  ghost function HideImages(st: State, v: ViewId): (r: (State, seq<Effect>))
    ensures Tracked(r.0, v) == {} && r.0.urldata == st.urldata
    ensures forall w :: w != v ==> Tracked(r.0, w) == Tracked(st, w)
    ensures |r.1| == |Tracked(st, v)|
  {
    (st.(phantoms := st.phantoms - {v}), EraseAll(Enumerate(Tracked(st, v))))
  }

  /** `on_close`: erase as `hide_images` does, then drop the view's cache too. */
  ghost function OnClose(st: State, v: ViewId): (r: (State, seq<Effect>))
    ensures Tracked(r.0, v) == {} && CacheOf(r.0, v) == map[]
    ensures forall w :: w != v ==> Tracked(r.0, w) == Tracked(st, w) && CacheOf(r.0, w) == CacheOf(st, w)
    ensures r.1 == HideImages(st, v).1
  {
    (Store(st, v, {}, map[]), HideImages(st, v).1)
  }

  // ---------------------------------------------------------------------
  // Invariants of the loop over links
  // ---------------------------------------------------------------------

  /** Links are visited right to left, so the found phantoms come in decreasing link order. */
  predicate Descending(found: seq<Found>)
  {
    forall i, j :: 0 <= i < j < |found| ==> found[i].link > found[j].link
  }

  /** Every found phantom comes from a link at index `k` or later. */
  predicate FromLink(found: seq<Found>, k: nat)
  {
    forall i :: 0 <= i < |found| ==> found[i].link >= k
  }

  /** Each phantom of the pass's key -> phantom map is tracked. */
  ghost predicate DesiredTracked(pass: Pass)
  {
    var d := Phantoms.Desired(PhantomsOf(pass.found));
    forall key :: key in d ==> d[key] in pass.tracked
  }

  predicate HasAdd(log: seq<Effect>)
  {
    exists e :: e in log && e.Add?
  }

  predicate NoErase(log: seq<Effect>)
  {
    forall e :: e in log ==> !e.Erase?
  }

  /** Every phantom the log adds was untracked in `before`. */
  predicate AddsOnlyNew(before: set<Phantom>, log: seq<Effect>)
  {
    forall e :: e in log && e.Add? ==> Phantom(e.key, e.html) !in before
  }

  /** Producing one more phantom overrides its key in the map. */
  lemma DesiredAppend(found: seq<Found>, f: Found)
    ensures Phantoms.Desired(PhantomsOf(found + [f])) == Phantoms.Desired(PhantomsOf(found))[f.phantom.key := f.phantom]
  {
    var ps := PhantomsOf(found + [f]);
    assert ps[..|found|] == PhantomsOf(found);
    assert ps[|ps| - 1] == f.phantom;
  }

  /** A log of fetches leaves the display as it was. */
  lemma {:induction false} FetchesKeepDisplay(shown: seq<Phantom>, log: seq<Effect>)
    requires OnlyFetches(log)
    ensures ApplyAll(shown, log) == shown
    decreases |log|
  {
    if log != [] {
      assert log[0] in log;
      assert forall e :: e in log[1..] ==> e in log;
      FetchesKeepDisplay(shown, log[1..]);
    }
  }

  /** An extension of a log with an add still has one. */
  lemma AddSurvives(log: seq<Effect>, longer: seq<Effect>)
    requires log <= longer && HasAdd(log)
    ensures HasAdd(longer)
  {
    var e :| e in log && e.Add?;
    var i :| 0 <= i < |log| && log[i] == e;
    assert longer[i] == e;
  }

  /** One link appends at most one phantom, tagged with its own index. */
  lemma StepDescends(variant: Variant, link: nat, pr: Probe, pass: Pass)
    requires Descending(pass.found) && FromLink(pass.found, link + 1)
    ensures var s := Advance(variant, pass, link, pr);
      Descending(s.pass.found) && FromLink(s.pass.found, link)
  {
  }

  /** One link keeps every phantom of the pass's key -> phantom map tracked. */
  lemma StepDesiredTracked(variant: Variant, link: nat, pr: Probe, pass: Pass)
    requires DesiredTracked(pass)
    ensures DesiredTracked(Advance(variant, pass, link, pr).pass)
  {
    if pr.verdict.Placed? {
      var p := pr.verdict.p;
      var a := Place(variant, pass.(log := pass.log + pr.fetched), link, p, pr.verdict.anchor, pr.verdict.entry);
      assert Advance(variant, pass, link, pr).pass == a;
      DesiredAppend(pass.found, Found(link, p));
      var d := Phantoms.Desired(PhantomsOf(pass.found));
      forall key | key in d && key != p.key ensures d[key] in a.tracked {
        assert d[key].key == key;
      }
    }
  }

  /** One link changes the cache only by a placement that logs an add. */
  lemma StepCacheNeedsAdd(variant: Variant, link: nat, pr: Probe, init: Pass, pass: Pass)
    requires pass.cache != init.cache ==> HasAdd(pass.log)
    ensures var s := Advance(variant, pass, link, pr);
      s.pass.cache != init.cache ==> HasAdd(s.pass.log)
  {
    var s := Advance(variant, pass, link, pr);
    if HasAdd(pass.log) {
      AddSurvives(pass.log, s.pass.log);
    }
    if pr.verdict.Placed? && s.pass.cache != pass.cache {
      var p := pr.verdict.p;
      assert Add(p.key, pr.verdict.anchor, p.html) in s.pass.log;
    }
  }

  /** The loop keeps any invariant that one link keeps. */
  lemma {:induction false} RunPreserves(variant: Variant, probe: Prober, k: nat, pass: Pass, inv: Pass -> bool)
    requires inv(pass)
    requires forall link: nat, p: Pass {:trigger Advance(variant, p, link, probe(link, p.cache))} ::
      inv(p) ==> inv(Advance(variant, p, link, probe(link, p.cache)).pass)
    ensures inv(RunLinks(variant, probe, k, pass).pass)
    decreases k
  {
    if k > 0 {
      var s := Advance(variant, pass, k - 1, probe(k - 1, pass.cache));
      if s.Continue? {
        assert RunLinks(variant, probe, k, pass) == RunLinks(variant, probe, k - 1, s.pass);
        RunPreserves(variant, probe, k - 1, s.pass, inv);
      } else {
        assert RunLinks(variant, probe, k, pass) == s;
      }
    }
  }

  lemma RunDesiredTracked(variant: Variant, probe: Prober, k: nat, pass: Pass)
    requires DesiredTracked(pass)
    ensures DesiredTracked(RunLinks(variant, probe, k, pass).pass)
  {
    forall link: nat, p: Pass {:trigger Advance(variant, p, link, probe(link, p.cache))} | DesiredTracked(p)
      ensures DesiredTracked(Advance(variant, p, link, probe(link, p.cache)).pass)
    {
      StepDesiredTracked(variant, link, probe(link, p.cache), p);
    }
    RunPreserves(variant, probe, k, pass, (p: Pass) => DesiredTracked(p));
  }

  lemma RunCacheNeedsAdd(variant: Variant, probe: Prober, k: nat, init: Pass, pass: Pass)
    requires pass.cache != init.cache ==> HasAdd(pass.log)
    ensures var s := RunLinks(variant, probe, k, pass);
      s.pass.cache != init.cache ==> HasAdd(s.pass.log)
  {
    forall link: nat, p: Pass {:trigger Advance(variant, p, link, probe(link, p.cache))} | p.cache != init.cache ==> HasAdd(p.log)
      ensures var q := Advance(variant, p, link, probe(link, p.cache)).pass; q.cache != init.cache ==> HasAdd(q.log)
    {
      StepCacheNeedsAdd(variant, link, probe(link, p.cache), init, p);
    }
    RunPreserves(variant, probe, k, pass, (p: Pass) => p.cache != init.cache ==> HasAdd(p.log));
  }

  lemma RunAsWritten(probe: Prober, k: nat, before: set<Phantom>, pass: Pass)
    requires FetchesOnly(probe)
    requires before <= pass.tracked && NoErase(pass.log) && AddsOnlyNew(before, pass.log)
    ensures var s := RunLinks(AsWritten, probe, k, pass);
      before <= s.pass.tracked && NoErase(s.pass.log) && AddsOnlyNew(before, s.pass.log)
  {
    forall link: nat, p: Pass {:trigger Advance(AsWritten, p, link, probe(link, p.cache))} | before <= p.tracked && NoErase(p.log) && AddsOnlyNew(before, p.log)
      ensures var q := Advance(AsWritten, p, link, probe(link, p.cache)).pass;
        before <= q.tracked && NoErase(q.log) && AddsOnlyNew(before, q.log)
    {
      StepAsWritten(link, probe(link, p.cache), before, p);
    }
    RunPreserves(AsWritten, probe, k, pass, (p: Pass) => before <= p.tracked && NoErase(p.log) && AddsOnlyNew(before, p.log));
  }

  lemma RunConsistent(probe: Prober, k: nat, pass: Pass, shown: seq<Phantom>)
    requires FetchesOnly(probe)
    requires Consistent(pass.tracked, ApplyAll(shown, pass.log))
    ensures var s := RunLinks(Corrected, probe, k, pass);
      Consistent(s.pass.tracked, ApplyAll(shown, s.pass.log))
  {
    forall link: nat, p: Pass {:trigger Advance(Corrected, p, link, probe(link, p.cache))} | Consistent(p.tracked, ApplyAll(shown, p.log))
      ensures var q := Advance(Corrected, p, link, probe(link, p.cache)).pass; Consistent(q.tracked, ApplyAll(shown, q.log))
    {
      StepConsistent(link, probe(link, p.cache), p, shown);
    }
    RunPreserves(Corrected, probe, k, pass, (p: Pass) => Consistent(p.tracked, ApplyAll(shown, p.log)));
  }

  /** Links are visited from the last to the first. */
  lemma {:induction false} RunDescends(variant: Variant, probe: Prober, k: nat, pass: Pass)
    requires Descending(pass.found) && FromLink(pass.found, k)
    ensures Descending(RunLinks(variant, probe, k, pass).pass.found)
    decreases k
  {
    if k > 0 {
      var pr := probe(k - 1, pass.cache);
      StepDescends(variant, k - 1, pr, pass);
      var s := Advance(variant, pass, k - 1, pr);
      if s.Continue? {
        assert RunLinks(variant, probe, k, pass) == RunLinks(variant, probe, k - 1, s.pass);
        RunDescends(variant, probe, k - 1, s.pass);
      } else {
        assert RunLinks(variant, probe, k, pass) == s;
      }
    }
  }

  /** As written, one link only adds phantoms not tracked at the start, and never erases. */
  lemma StepAsWritten(link: nat, pr: Probe, before: set<Phantom>, pass: Pass)
    requires OnlyFetches(pr.fetched)
    requires before <= pass.tracked && NoErase(pass.log) && AddsOnlyNew(before, pass.log)
    ensures var s := Advance(AsWritten, pass, link, pr);
      before <= s.pass.tracked && NoErase(s.pass.log) && AddsOnlyNew(before, s.pass.log)
  {
    assert forall e :: e in pass.log + pr.fetched ==> e in pass.log || e in pr.fetched;
  }

  /** Erasing a key, then adding a phantom with that key, keeps tracked and displayed in step. */
  lemma EraseThenAddKeeps(tracked: set<Phantom>, mid: seq<Phantom>, p: Phantom, anchor: nat)
    requires Consistent(tracked, mid)
    ensures Consistent(tracked - WithKey(tracked, p.key) + {p}, ApplyAll(mid, [Erase(p.key), Add(p.key, anchor, p.html)]))
  {
    var calls := [Erase(p.key), Add(p.key, anchor, p.html)];
    var m1 := Apply(mid, Erase(p.key));
    assert calls[1..] == [Add(p.key, anchor, p.html)];
    assert ApplyAll(mid, calls) == ApplyAll(m1, [Add(p.key, anchor, p.html)]);
    assert [Add(p.key, anchor, p.html)][1..] == [];
    assert ApplyAll(m1, [Add(p.key, anchor, p.html)]) == ApplyAll(Apply(m1, Add(p.key, anchor, p.html)), []);
    EraseKeyKeeps(tracked, mid, p.key);
    var rest := tracked - WithKey(tracked, p.key);
    AddFreshKeyKeeps(rest, Apply(mid, Erase(p.key)), p, anchor);
  }

  /** The corrected placement keeps what is tracked and what is displayed in step. */
  lemma PlaceConsistent(pass: Pass, link: nat, p: Phantom, anchor: nat, entry: Option<(string, seq<Byte>)>, shown: seq<Phantom>)
    requires Consistent(pass.tracked, ApplyAll(shown, pass.log))
    ensures var a := Place(Corrected, pass, link, p, anchor, entry);
      Consistent(a.tracked, ApplyAll(shown, a.log))
  {
    if p !in pass.tracked {
      ApplyAllConcat(shown, pass.log, [Erase(p.key), Add(p.key, anchor, p.html)]);
      EraseThenAddKeeps(pass.tracked, ApplyAll(shown, pass.log), p, anchor);
    }
  }

  lemma StepConsistent(link: nat, pr: Probe, pass: Pass, shown: seq<Phantom>)
    requires OnlyFetches(pr.fetched)
    requires Consistent(pass.tracked, ApplyAll(shown, pass.log))
    ensures var s := Advance(Corrected, pass, link, pr);
      Consistent(s.pass.tracked, ApplyAll(shown, s.pass.log))
  {
    var pass1 := pass.(log := pass.log + pr.fetched);
    ApplyAllConcat(shown, pass.log, pr.fetched);
    FetchesKeepDisplay(ApplyAll(shown, pass.log), pr.fetched);
    if pr.verdict.Placed? {
      PlaceConsistent(pass1, link, pr.verdict.p, pr.verdict.anchor, pr.verdict.entry, shown);
    }
  }

  // ---------------------------------------------------------------------
  // The show pass
  // ---------------------------------------------------------------------

  /** The general invariants, for the whole loop of a show pass. */
  lemma RunAllKeeps(variant: Variant, env: Env, opts: Options, view: View, st: State)
    requires Regions.WellFormed(view.text, view.links)
    ensures var s := RunAll(variant, env, opts, view, st);
      && Descending(s.pass.found) && DesiredTracked(s.pass)
      && (s.pass.cache != CacheOf(st, view.id) ==> HasAdd(s.pass.log))
  {
    var regs := Regions.MergeRegions(view.text, view.links);
    var init := Start(st, view.id);
    var probe := ProbeLinks(variant, env, opts, EffectiveMaxWidth(opts.maxWidth), view, regs);
    RunDescends(variant, probe, |regs|, init);
    RunDesiredTracked(variant, probe, |regs|, init);
    RunCacheNeedsAdd(variant, probe, |regs|, init, init);
  }

  /**
   * A completed pass leaves tracked exactly the phantoms of its key -> phantom
   * map: the erase loop removes every other one, and every one of them is tracked.
   */
  lemma ShowTracksDesired(variant: Variant, env: Env, opts: Options, view: View, st: State)
    requires Regions.WellFormed(view.text, view.links)
    ensures var out := ShowImages(variant, env, opts, view, st);
      !out.aborted && (opts.showLocal || opts.showRemote) ==>
        forall q :: q in Tracked(out.state, view.id) <==> q.key in out.Desired() && out.Desired()[q.key] == q
  {
    if opts.showLocal || opts.showRemote {
      RunAllKeeps(variant, env, opts, view, st);
    }
  }

  /** Found phantoms in decreasing link order: the one from the leftmost link is the last with its key. */
  lemma LeftmostIsLast(found: seq<Found>, j: nat)
    requires Descending(found) && j < |found|
    requires forall j' :: 0 <= j' < |found| && found[j'].phantom.key == found[j].phantom.key ==> found[j].link <= found[j'].link
    ensures Phantoms.Desired(PhantomsOf(found))[found[j].phantom.key] == found[j].phantom
  {
    var ps := PhantomsOf(found);
    forall j' | j < j' < |ps| ensures ps[j'].key != ps[j].key {
      assert found[j'].link < found[j].link;
    }
    DesiredIsLast(ps, j);
  }

  /** Of several links on one line, the leftmost one's phantom is the one the pass keeps for the line. */
  lemma LeftmostLinkWins(variant: Variant, env: Env, opts: Options, view: View, st: State, j: nat)
    requires Regions.WellFormed(view.text, view.links)
    requires var out := ShowImages(variant, env, opts, view, st);
      && j < |out.found|
      && forall j' :: 0 <= j' < |out.found| && out.found[j'].phantom.key == out.found[j].phantom.key ==> out.found[j].link <= out.found[j'].link
    ensures var out := ShowImages(variant, env, opts, view, st);
      out.Desired()[out.found[j].phantom.key] == out.found[j].phantom
  {
    RunAllKeeps(variant, env, opts, view, st);
    var out := ShowImages(variant, env, opts, view, st);
    LeftmostIsLast(out.found, j);
  }

  /** The view's image cache changes only in a pass that adds a phantom. */
  lemma CacheChangesOnlyWithAdd(variant: Variant, env: Env, opts: Options, view: View, st: State)
    requires Regions.WellFormed(view.text, view.links)
    ensures var out := ShowImages(variant, env, opts, view, st);
      CacheOf(out.state, view.id) != CacheOf(st, view.id) ==> exists e :: e in out.log && e.Add?
  {
    if opts.showLocal || opts.showRemote {
      RunAllKeeps(variant, env, opts, view, st);
      var s := RunAll(variant, env, opts, view, st);
      var out := ShowImages(variant, env, opts, view, st);
      if HasAdd(s.pass.log) {
        AddSurvives(s.pass.log, out.log);
      }
    }
  }

  /**
   * As written, a pass adds only phantoms that were not tracked when it began,
   * and one that raises has erased nothing, so the phantoms tracked before stay tracked.
   */
  lemma AsWrittenAddsOnlyUntracked(env: Env, opts: Options, view: View, st: State)
    requires Regions.WellFormed(view.text, view.links)
    ensures var out := ShowImages(AsWritten, env, opts, view, st);
      forall e :: e in out.log && e.Add? ==> Phantom(e.key, e.html) !in Tracked(st, view.id)
    ensures var out := ShowImages(AsWritten, env, opts, view, st);
      out.aborted ==> NoErase(out.log) && Tracked(st, view.id) <= Tracked(out.state, view.id)
  {
    if opts.showLocal || opts.showRemote {
      var regs := Regions.MergeRegions(view.text, view.links);
      var init := Start(st, view.id);
      RunAsWritten(ProbeLinks(AsWritten, env, opts, EffectiveMaxWidth(opts.maxWidth), view, regs), |regs|, init.tracked, init);
      var s := RunAll(AsWritten, env, opts, view, st);
      var out := ShowImages(AsWritten, env, opts, view, st);
      if s.Continue? {
        var erases := out.log[|s.pass.log|..];
        assert out.log == s.pass.log + erases;
        assert OnlyErases(erases);
        assert forall e :: e in erases ==> e.Erase?;
      }
    }
  }

  /**
   * With the corrected placement, a pass keeps the tracked phantoms and the
   * host's display in step: every tracked phantom is displayed once, nothing
   * else of the plugin's is, and no two tracked phantoms share a key.
   */
  lemma CorrectedStaysConsistent(env: Env, opts: Options, view: View, st: State, shown: seq<Phantom>)
    requires Regions.WellFormed(view.text, view.links)
    requires Consistent(Tracked(st, view.id), shown)
    ensures var out := ShowImages(Corrected, env, opts, view, st);
      Consistent(Tracked(out.state, view.id), ApplyAll(shown, out.log))
  {
    if opts.showLocal || opts.showRemote {
      var regs := Regions.MergeRegions(view.text, view.links);
      RunConsistent(ProbeLinks(Corrected, env, opts, EffectiveMaxWidth(opts.maxWidth), view, regs), |regs|, Start(st, view.id), shown);
      var p := RunAll(Corrected, env, opts, view, st).pass;
      var desired := Phantoms.Desired(PhantomsOf(p.found));
      var order := Enumerate(p.tracked);
      EraseStaleKeeps(p.tracked, ApplyAll(shown, p.log), desired, order);
      ApplyAllConcat(shown, p.log, EraseStale(p.tracked, desired, order).1);
    }
  }

  // ---------------------------------------------------------------------
  // Single links
  // ---------------------------------------------------------------------

  /** A link the skip rules drop leaves the pass untouched. */
  lemma SkippedLinkLeavesPass(variant: Variant, env: Env, opts: Options, maxWidth: int, view: View, link: nat, r: Regions.Region, pass: Pass)
    requires maxWidth > 0 && Inside(view.text, r)
    requires Resolve(env.lib, Regions.Substr(view.text, r), opts.showLocal, opts.showRemote, opts.basePath, view.fileName, view.projectFile) == Skip
    ensures ProcessLink(variant, env, opts, maxWidth, view, link, r, pass) == Continue(pass)
  {
    assert pass.log + [] == pass.log;
  }

  /** A remote image with cached, non-empty bytes is not fetched again; any other remote image is fetched once. */
  lemma RemoteFetchedUnlessCached(variant: Variant, env: Env, opts: Options, maxWidth: int, view: View, r: Regions.Region, cache: map<string, seq<Byte>>, url: string)
    requires maxWidth > 0 && Inside(view.text, r)
    requires Resolve(env.lib, Regions.Substr(view.text, r), opts.showLocal, opts.showRemote, opts.basePath, view.fileName, view.projectFile) == Remote(url)
    ensures url in cache && |cache[url]| > 0 ==> Examine(variant, env, opts, maxWidth, view, r, cache).fetched == []
    ensures !(url in cache && |cache[url]| > 0) ==> Examine(variant, env, opts, maxWidth, view, r, cache).fetched == [Fetch(url)]
  {
  }

  /** `urldata[view][url]` holds bytes that `if not data` accepts. */
  predicate Cached(cache: map<string, seq<Byte>>, url: string)
  {
    url in cache && |cache[url]| > 0
  }

  /** A link whose probe caches only non-empty bytes never un-caches a URL. */
  lemma StepKeepsCached(variant: Variant, pass: Pass, link: nat, pr: Probe, url: string)
    requires Cached(pass.cache, url)
    requires pr.verdict.Placed? && pr.verdict.entry.Some? ==> |pr.verdict.entry.value.1| > 0
    ensures Cached(Advance(variant, pass, link, pr).pass.cache, url)
  {
    var c := Advance(variant, pass, link, pr).pass.cache;
    if c != pass.cache {
      var entry := pr.verdict.entry;
      assert c == pass.cache[entry.value.0 := entry.value.1];
    }
  }

  /** Once cached, a URL stays cached through every link the loop reaches. */
  lemma {:induction false} ReachKeepsCached(variant: Variant, probe: Prober, k: nat, pass: Pass, j: nat, url: string)
    requires CachesNonEmpty(probe) && j < k && Cached(pass.cache, url)
    ensures Cached(Reach(variant, probe, k, pass, j).pass.cache, url)
    decreases k
  {
    if j != k - 1 {
      var s := Advance(variant, pass, k - 1, probe(k - 1, pass.cache));
      StepKeepsCached(variant, pass, k - 1, probe(k - 1, pass.cache), url);
      if s.Continue? {
        ReachKeepsCached(variant, probe, k - 1, s.pass, j, url);
      }
    }
  }

  /** Once cached, a URL stays cached to the end of the loop. */
  lemma RunKeepsCached(variant: Variant, probe: Prober, k: nat, pass: Pass, url: string)
    requires CachesNonEmpty(probe) && Cached(pass.cache, url)
    ensures Cached(RunLinks(variant, probe, k, pass).pass.cache, url)
  {
    forall link: nat, p: Pass {:trigger Advance(variant, p, link, probe(link, p.cache))} | Cached(p.cache, url)
      ensures Cached(Advance(variant, p, link, probe(link, p.cache)).pass.cache, url)
    {
      StepKeepsCached(variant, p, link, probe(link, p.cache), url);
    }
    RunPreserves(variant, probe, k, pass, (p: Pass) => Cached(p.cache, url));
  }

  /** A remote image the loop adds is cached under its URL with the bytes it was measured from. */
  lemma AddedRemoteIsCached(variant: Variant, env: Env, opts: Options, maxWidth: int, view: View, link: nat, r: Regions.Region, pass: Pass, url: string)
    requires maxWidth > 0 && Inside(view.text, r)
    requires TargetOf(env, opts, view, r) == Remote(url)
    requires var pr := Examine(variant, env, opts, maxWidth, view, r, pass.cache);
      pr.verdict.Placed? && pr.verdict.p !in pass.tracked
    ensures var s := ProcessLink(variant, env, opts, maxWidth, view, link, r, pass);
      s.Continue? && Cached(s.pass.cache, url) && s.pass.cache[url] == RemoteData(env, pass.cache, url).value
  {
    var pr := Examine(variant, env, opts, maxWidth, view, r, pass.cache);
    var l := LoadTarget(env, pass.cache, Remote(url));
    assert pr.verdict.entry == l.image.value.entry;
  }

  /** A URL that link `k - 1` leaves cached stays cached for every later link and to the end of the loop. */
  lemma FirstStepCached(variant: Variant, probe: Prober, k: nat, pass: Pass, url: string, j: nat)
    requires CachesNonEmpty(probe) && j < k - 1
    requires var s := Advance(variant, pass, k - 1, probe(k - 1, pass.cache)); s.Continue? && Cached(s.pass.cache, url)
    ensures Cached(Reach(variant, probe, k, pass, j).pass.cache, url)
    ensures Cached(RunLinks(variant, probe, k, pass).pass.cache, url)
  {
    var s := Advance(variant, pass, k - 1, probe(k - 1, pass.cache));
    assert Reach(variant, probe, k, pass, j) == Reach(variant, probe, k - 1, s.pass, j);
    assert RunLinks(variant, probe, k, pass) == RunLinks(variant, probe, k - 1, s.pass);
    ReachKeepsCached(variant, probe, k - 1, s.pass, j, url);
    RunKeepsCached(variant, probe, k - 1, s.pass, url);
  }

  /**
   * After the loop adds a remote image at link `k - 1`, every later link `j`
   * with the same URL is served from the cache without a fetch, and the cache
   * the loop ends with still holds the bytes.
   */
  lemma AddedRemoteNotRefetched(variant: Variant, env: Env, opts: Options, maxWidth: int, view: View, regs: seq<Regions.Region>,
                                k: nat, pass: Pass, url: string, j: nat)
    requires maxWidth > 0 && AllInside(view.text, regs) && 0 < k <= |regs| && j < k - 1
    requires TargetOf(env, opts, view, regs[k - 1]) == Remote(url) && TargetOf(env, opts, view, regs[j]) == Remote(url)
    requires var pr := Examine(variant, env, opts, maxWidth, view, regs[k - 1], pass.cache);
      pr.verdict.Placed? && pr.verdict.p !in pass.tracked
    ensures var probe := ProbeLinks(variant, env, opts, maxWidth, view, regs);
      && Examine(variant, env, opts, maxWidth, view, regs[j], Reach(variant, probe, k, pass, j).pass.cache).fetched == []
      && Cached(RunLinks(variant, probe, k, pass).pass.cache, url)
  {
    var probe := ProbeLinks(variant, env, opts, maxWidth, view, regs);
    AddedRemoteIsCached(variant, env, opts, maxWidth, view, k - 1, regs[k - 1], pass, url);
    assert probe(k - 1, pass.cache) == Examine(variant, env, opts, maxWidth, view, regs[k - 1], pass.cache);
    FirstStepCached(variant, probe, k, pass, url, j);
    RemoteFetchedUnlessCached(variant, env, opts, maxWidth, view, regs[j], Reach(variant, probe, k, pass, j).pass.cache, url);
  }

  /** A URL cached when a show pass starts is still cached for the next one. */
  lemma ShowKeepsCached(variant: Variant, env: Env, opts: Options, view: View, st: State, url: string)
    requires Regions.WellFormed(view.text, view.links) && Cached(CacheOf(st, view.id), url)
    ensures Cached(CacheOf(ShowImages(variant, env, opts, view, st).state, view.id), url)
  {
    if opts.showLocal || opts.showRemote {
      var regs := Regions.MergeRegions(view.text, view.links);
      var probe := ProbeLinks(variant, env, opts, EffectiveMaxWidth(opts.maxWidth), view, regs);
      RunKeepsCached(variant, probe, |regs|, Start(st, view.id), url);
    }
  }

  /** The first bytes of a JPEG cut off before its frame header. */
  const TruncatedJpeg: seq<Byte> := [0xFF, 0xD8, 0xFF, 0xE0, 0x00, 0x10] + Jfif

  /**
   * A local link to a JPEG whose size cannot be read, with no custom attribute:
   * as written the `None > 0` comparison raises out of the pass; corrected, the
   * image is placed without a size attribute.
   */
  lemma UnsizedJpegAborts(env: Env, opts: Options, maxWidth: int, view: View, link: nat, r: Regions.Region, pass: Pass, path: string, uri: string)
    requires maxWidth > 0 && Inside(view.text, r)
    requires Resolve(env.lib, Regions.Substr(view.text, r), opts.showLocal, opts.showRemote, opts.basePath, view.fileName, view.projectFile) == Local(path, uri)
    requires env.readFile(path) == Some(TruncatedJpeg)
    requires ImgAttr.CheckImgAttr(view.text[r.a..Regions.Line(view.text, r).b]) == ""
    ensures ProcessLink(AsWritten, env, opts, maxWidth, view, link, r, pass).Abort?
    ensures var lineEnd := Regions.Line(view.text, r).b;
      ProcessLink(Corrected, env, opts, maxWidth, view, link, r, pass)
        == Continue(Place(Corrected, pass, link, Phantom(KeyFor(lineEnd), Html(uri, NoAttr)), lineEnd, None))
  {
    UnsizedJpegProbe(AsWritten, env, opts, maxWidth, view, r, pass.cache, path, uri);
    UnsizedJpegProbe(Corrected, env, opts, maxWidth, view, r, pass.cache, path, uri);
    assert pass.log + [] == pass.log;
  }

  /** What probing such a link yields: nothing fetched, then a raise or a phantom without a size. */
  lemma UnsizedJpegProbe(variant: Variant, env: Env, opts: Options, maxWidth: int, view: View, r: Regions.Region,
                         cache: map<string, seq<Byte>>, path: string, uri: string)
    requires maxWidth > 0 && Inside(view.text, r)
    requires Resolve(env.lib, Regions.Substr(view.text, r), opts.showLocal, opts.showRemote, opts.basePath, view.fileName, view.projectFile) == Local(path, uri)
    requires env.readFile(path) == Some(TruncatedJpeg)
    requires ImgAttr.CheckImgAttr(view.text[r.a..Regions.Line(view.text, r).b]) == ""
    ensures var lineEnd := Regions.Line(view.text, r).b;
      Examine(variant, env, opts, maxWidth, view, r, cache)
        == Probe([], if variant.AsWritten? then Raises else Placed(Phantom(KeyFor(lineEnd), Html(uri, NoAttr)), lineEnd, None))
  {
    TruncatedJpegHasNoSize();
    var m := Measure(None, None, Some(Jpeg));
    assert Measured(TruncatedJpeg) == Some(m);
    assert LoadLocal(env, path, uri) == Load([], Some(Image(uri, m, None)));
    UnknownSizeRaises(maxWidth);
    assert Size(variant, "", m, maxWidth) == if variant.AsWritten? then TypeError else Sized(NoAttr);
  }

  // ---------------------------------------------------------------------
  // Erasing by key
  // ---------------------------------------------------------------------

  /**
   * As written, a phantom just added for a line whose key another tracked
   * phantom shares (an older image on the same line, or a link to its right
   * placed earlier in the pass) stays tracked, yet the erase loop removes it
   * from the display, whatever the display held before.
   */
  lemma AddedThenErased(pass: Pass, link: nat, p: Phantom, q: Phantom, anchor: nat, entry: Option<(string, seq<Byte>)>, shown: seq<Phantom>)
    requires q in pass.tracked && p !in pass.tracked && p.key == q.key && p != q
    ensures var a := Place(AsWritten, pass, link, p, anchor, entry);
      var desired := Phantoms.Desired(PhantomsOf(a.found));
      var (tracked, erases) := EraseStale(a.tracked, desired, Enumerate(a.tracked));
      p in tracked && multiset(ApplyAll(shown, erases))[p] == 0 && !Consistent(tracked, ApplyAll(shown, erases))
  {
    var a := Place(AsWritten, pass, link, p, anchor, entry);
    DesiredAppend(pass.found, Found(link, p));
    var desired := Phantoms.Desired(PhantomsOf(a.found));
    var order := Enumerate(a.tracked);
    var (tracked, erases) := EraseStale(a.tracked, desired, order);
    assert q in order && Stale(q, desired);
    ErasesRemove(shown, erases, p);
    assert !Stale(p, desired);
  }

  /**
   * Corrected, the same placement keeps the new phantom displayed exactly once
   * through the erase loop, whenever tracked and displayed agreed before.
   */
  lemma CorrectedKeepsAdded(pass: Pass, link: nat, p: Phantom, anchor: nat, entry: Option<(string, seq<Byte>)>, shown: seq<Phantom>)
    requires Consistent(pass.tracked, ApplyAll(shown, pass.log))
    ensures var a := Place(Corrected, pass, link, p, anchor, entry);
      var desired := Phantoms.Desired(PhantomsOf(a.found));
      var (tracked, erases) := EraseStale(a.tracked, desired, Enumerate(a.tracked));
      p in tracked && multiset(ApplyAll(shown, a.log + erases))[p] == 1
  {
    var a := Place(Corrected, pass, link, p, anchor, entry);
    PlaceConsistent(pass, link, p, anchor, entry, shown);
    DesiredAppend(pass.found, Found(link, p));
    var desired := Phantoms.Desired(PhantomsOf(a.found));
    var order := Enumerate(a.tracked);
    EraseStaleKeeps(a.tracked, ApplyAll(shown, a.log), desired, order);
    ApplyAllConcat(shown, a.log, EraseStale(a.tracked, desired, order).1);
    assert !Stale(p, desired);
  }

  // ---------------------------------------------------------------------
  // Hiding and closing
  // ---------------------------------------------------------------------

  /** After hiding, nothing the plugin tracked for the view is displayed any more. */
  lemma HideErasesDisplay(st: State, v: ViewId, shown: seq<Phantom>)
    requires Consistent(Tracked(st, v), shown)
    ensures forall p :: multiset(ApplyAll(shown, HideImages(st, v).1))[p] == 0
  {
    HideClearsTracked(Tracked(st, v), shown, Enumerate(Tracked(st, v)));
  }

}
