/**
 * What the Cue3 compiler promises, stated over the functions its methods are
 * proved equal to: the tag scrubbing, the layers a job submits, the
 * dependency records, the environment and the fixed parts of the document.
 */
module Cue3Properties {
  import opened Wrappers
  import opened Text
  import opened Xml
  import opened Outline
  import opened Cue3

  // ------------------------------------------------------------- scrub_tags

  /** No alphanumeric word holds a `|`. */
  lemma AlnumHasNoBar(w: string)
    requires IsAlnum(w)
    ensures '|' !in w
  {
    forall i | 0 <= i < |w|
      ensures w[i] != '|'
    {
      assert IsAlnumChar(w[i]);
    }
  }

  /** One word, with or without a leading space, splits into itself and scrubs back to itself. */
  lemma ScrubJoinedOne(lead: string, w: string)
    requires lead == "" || lead == " "
    requires IsAlnum(w)
    ensures ScrubPieces(Split(lead + w, '|')) == [w]
  {
    var x := lead + w;
    AlnumHasNoBar(w);
    assert '|' !in x;
    SplitNoSeparator(x, '|');
    StripPadded(lead, w, "");
    assert lead + w + "" == x;
    assert [x][1..] == [];
  }

  /** `" | "` between two strings is a `|` with a space on each side. */
  lemma BarBetween(x: string, r: string)
    ensures x + " | " + r == (x + " ") + ['|'] + (" " + r)
  {
    assert " | " == " " + ['|'] + " ";
    ConcatAssoc(x, " " + ['|'], " ");
    ConcatAssoc(x, " ", ['|']);
    ConcatAssoc(x + " " + ['|'], " ", r);
  }

  /** The text before the first `|` of joined words, and the rest after it. */
  lemma JoinedSplitsAtBar(lead: string, words: seq<string>)
    requires lead == "" || lead == " "
    requires |words| >= 2 && IsAlnum(words[0])
    ensures '|' !in lead + words[0] + " "
    ensures lead + JoinWith(" | ", words) == (lead + words[0] + " ") + ['|'] + (" " + JoinWith(" | ", words[1..]))
  {
    var w, r := words[0], JoinWith(" | ", words[1..]);
    AlnumHasNoBar(w);
    assert JoinWith(" | ", words) == w + " | " + r;
    ConcatAssoc(lead, w + " | ", r);
    ConcatAssoc(lead, w, " | ");
    BarBetween(lead + w, r);
  }

  /**
   * Splitting scrubbed words joined by `" | "` on `|` and scrubbing the pieces
   * again gives back the words; `lead` is the space a piece after a `|` starts with.
   */
  lemma {:induction false} ScrubJoined(lead: string, words: seq<string>)
    requires lead == "" || lead == " "
    requires |words| >= 1 && forall k :: 0 <= k < |words| ==> IsAlnum(words[k])
    ensures ScrubPieces(Split(lead + JoinWith(" | ", words), '|')) == words
    decreases |words|
  {
    if |words| == 1 {
      ScrubJoinedOne(lead, words[0]);
    } else {
      var w := words[0];
      var a := lead + w + " ";
      var b := " " + JoinWith(" | ", words[1..]);
      JoinedSplitsAtBar(lead, words);
      SplitConcat(a, b, '|');
      SplitNoSeparator(a, '|');
      var pieces := [a] + Split(b, '|');
      assert Split(lead + JoinWith(" | ", words), '|') == pieces;
      ScrubJoined(" ", words[1..]);
      StripPadded(lead, w, " ");
      assert pieces[0] == a && pieces[1..] == Split(b, '|');
      assert ScrubPieces(pieces) == [w] + ScrubPieces(Split(b, '|'));
      assert words == [w] + words[1..];
    }
  }

  /** Splitting what scrub_tags returns on `|` and scrubbing again keeps exactly the same words. */
  lemma ScrubTagsResplit(s: string)
    ensures ScrubPieces(Split(ScrubTags(TagString(s)), '|')) == ScrubPieces(Split(s, '|'))
  {
    var words := ScrubPieces(Split(s, '|'));
    ScrubPiecesSpec(Split(s, '|'));
    if |words| == 0 {
      assert ScrubTags(TagString(s)) == "";
      assert Split("", '|') == [""];
      assert Strip("") == "";
      assert ScrubPieces([""]) == [];
    } else {
      ScrubJoined("", words);
      assert "" + JoinWith(" | ", words) == JoinWith(" | ", words);
    }
  }

  /** scrub_tags is idempotent on a tag string. */
  lemma ScrubTagsIdempotent(s: string)
    ensures ScrubTags(TagString(ScrubTags(TagString(s)))) == ScrubTags(TagString(s))
  {
    ScrubTagsResplit(s);
  }

  // ------------------------------------------------------- dependency records

  /**
   * The `<depend>` record of an edge: its type and its any-frame flag, the
   * job and the layer on both sides, then the frame or the layer depended on.
   */
  lemma DependRecordShape(ol: Outline, layer: Layer, d: Depend)
    requires Resolves(ol, d)
    ensures var r := DependRecord(ol, layer, d);
      var target := ol.layers[d.onLayer];
      && r.tag == "depend"
      && "type" in r.attrs && r.attrs["type"] == d.dependType
      && "anyframe" in r.attrs && r.attrs["anyframe"] == BoolToStr(d.anyFrame)
      && (r.attrs["anyframe"] == "True" <==> d.anyFrame)
      && |r.children| == 4
      && r.children[0] == Leaf("depjob", Some(ol.name))
      && r.children[1] == Leaf("deplayer", Some(layer.name))
      && r.children[2] == Leaf("onjob", Some(ol.name))
      && (d.dependType == LAYER_ON_SIM_FRAME ==>
            && r.children[3] == Leaf("onframe", Some(FrameRef(target.frames[0], target.name)))
            && ParseFrameRef(r.children[3].text.value) == Some((target.frames[0], target.name)))
      && (d.dependType != LAYER_ON_SIM_FRAME ==> r.children[3] == Leaf("onlayer", Some(target.name)))
  {
    var target := ol.layers[d.onLayer];
    if d.dependType == LAYER_ON_SIM_FRAME {
      FrameRefRoundTrip(target.frames[0], target.name);
    }
  }

  /** `%04d` pads a small frame to four digits. */
  lemma FrameRefPadded()
    ensures FrameRef(5, "render") == "0005-render"
  {
    assert NatToDecimal(5) == "5";
    assert Zeros(3) == "000";
  }

  /** `%04d` keeps the sign of a negative frame in front of the zeros. */
  lemma FrameRefNegativeFrame()
    ensures FrameRef(-5, "sim") == "-005-sim"
  {
    assert NatToDecimal(5) == "5";
    assert Zeros(2) == "00";
  }

  /** `%04d` leaves a frame of five digits alone. */
  lemma FrameRefWide()
    ensures FrameRef(12345, "comp") == "12345-comp"
  {
    assert NatToDecimal(1) == "1";
    assert NatToDecimal(12) == "12";
    assert NatToDecimal(123) == "123";
    assert NatToDecimal(1234) == "1234";
    assert NatToDecimal(12345) == "12345";
  }

  /** A layer's dependencies are all written exactly when every one of its edges can be written. */
  lemma DependsWrittenOk(ol: Outline, layer: Layer)
    requires TargetsIn(ol, layer)
    ensures DependsWritten(ol, layer).error.None? <==> AllResolve(ol, layer, |layer.depends|)
  {
    var n := |layer.depends|;
    FirstUnresolvedAll(ol, layer, n);
    var f := FirstUnresolved(ol, layer, n);
    if f < n {
      DependsWrittenStops(ol, layer, f);
    }
  }

  /** When a layer's dependencies are all written, there is one record per edge, in edge order. */
  lemma DependsWrittenRecords(ol: Outline, layer: Layer)
    requires TargetsIn(ol, layer) && DependsWritten(ol, layer).error.None?
    ensures AllResolve(ol, layer, |layer.depends|)
    ensures var w := DependsWritten(ol, layer);
      && |w.records| == |layer.depends|
      && forall k :: 0 <= k < |layer.depends| ==> w.records[k] == DependRecord(ol, layer, layer.depends[k])
  {
    DependsWrittenOk(ol, layer);
    DependsWrittenAll(ol, layer);
    forall k | 0 <= k < |layer.depends|
      ensures DependsWritten(ol, layer).records[k] == DependRecord(ol, layer, layer.depends[k])
    {
      DependRecordsIndex(ol, layer, |layer.depends|, k);
    }
  }

  /**
   * When an edge cannot be written, the first such edge ends the layer: the
   * records before it stand, its bare `<depend>` follows, and the error names
   * the layer and the layer it depends on.
   */
  lemma DependsWrittenFailure(ol: Outline, layer: Layer)
    requires TargetsIn(ol, layer) && DependsWritten(ol, layer).error.Some?
    ensures exists i ::
      && 0 <= i < |layer.depends| && AllResolve(ol, layer, i) && !Resolves(ol, layer.depends[i])
      && DependsWritten(ol, layer).error == Some(NoFrameToDependOn(layer.name, ol.layers[layer.depends[i].onLayer].name))
      && |DependsWritten(ol, layer).records| == i + 1
  {
    var n := |layer.depends|;
    DependsWrittenOk(ol, layer);
    FirstUnresolvedAll(ol, layer, n);
    var f := FirstUnresolved(ol, layer, n);
    DependsWrittenStops(ol, layer, f);
  }

  // --------------------------------------------------------------- serialize

  /** The `<layer>` elements of `ls`, in order. */
  function LayerElements(ctx: Context, launcher: Launcher, ol: Outline, ls: seq<Layer>): (r: seq<Element>)
    ensures |r| == |ls|
  {
    if |ls| == 0 then []
    else LayerElements(ctx, launcher, ol, ls[..|ls| - 1]) + [LayerElement(ctx, launcher, ol, ls[|ls| - 1])]
  }

  lemma {:induction false} LayerElementsIndex(ctx: Context, launcher: Launcher, ol: Outline, ls: seq<Layer>, k: nat)
    requires k < |ls|
    ensures LayerElements(ctx, launcher, ol, ls)[k] == LayerElement(ctx, launcher, ol, ls[k])
  {
    var prefix := LayerElements(ctx, launcher, ol, ls[..|ls| - 1]);
    var last := LayerElement(ctx, launcher, ol, ls[|ls| - 1]);
    assert LayerElements(ctx, launcher, ol, ls) == prefix + [last];
    if k < |ls| - 1 {
      LayerElementsIndex(ctx, launcher, ol, ls[..|ls| - 1], k);
      assert (prefix + [last])[k] == prefix[k];
    }
  }

  /** The `<depend>` records of the submitted layers among `ls`, layer after layer. */
  function SubmittedDepends(ol: Outline, ls: seq<Layer>): seq<Element>
    requires forall k :: 0 <= k < |ls| ==> TargetsIn(ol, ls[k])
  {
    if |ls| == 0 then []
    else
      var last := ls[|ls| - 1];
      SubmittedDepends(ol, ls[..|ls| - 1]) + (if Kept(last) then DependsWritten(ol, last).records else [])
  }

  /** A layer gets through serialize's loop: it is skipped, or every one of its dependencies is written. */
  predicate Passes(ol: Outline, layer: Layer)
    requires TargetsIn(ol, layer)
  {
    !Kept(layer) || DependsWritten(ol, layer).error.None?
  }

  predicate AllPass(ol: Outline, n: nat)
    requires WellFormed(ol) && n <= |ol.layers|
  {
    forall k :: 0 <= k < n ==> Passes(ol, ol.layers[k])
  }

  /** One more layer of the outline is added to the submitted ones when it is submitted. */
  lemma KeptLayersStep(layers: seq<Layer>, n: nat)
    requires 0 < n <= |layers|
    ensures Kept(layers[n - 1]) ==> KeptLayers(layers[..n]) == KeptLayers(layers[..n - 1]) + [layers[n - 1]]
    ensures !Kept(layers[n - 1]) ==> KeptLayers(layers[..n]) == KeptLayers(layers[..n - 1])
  {
    assert layers[..n][..n - 1] == layers[..n - 1];
    assert KeptLayers(layers[..n - 1]) + [] == KeptLayers(layers[..n - 1]);
  }

  /** One more layer of the outline adds its records to the submitted ones when it is submitted. */
  lemma SubmittedDependsStep(ol: Outline, n: nat)
    requires WellFormed(ol) && 0 < n <= |ol.layers|
    ensures Kept(ol.layers[n - 1]) ==>
      SubmittedDepends(ol, ol.layers[..n])
      == SubmittedDepends(ol, ol.layers[..n - 1]) + DependsWritten(ol, ol.layers[n - 1]).records
    ensures !Kept(ol.layers[n - 1]) ==> SubmittedDepends(ol, ol.layers[..n]) == SubmittedDepends(ol, ol.layers[..n - 1])
  {
    assert ol.layers[..n][..n - 1] == ol.layers[..n - 1];
    assert SubmittedDepends(ol, ol.layers[..n - 1]) + [] == SubmittedDepends(ol, ol.layers[..n - 1]);
  }

  lemma LayerElementsSnoc(ctx: Context, launcher: Launcher, ol: Outline, ls: seq<Layer>, layer: Layer)
    ensures LayerElements(ctx, launcher, ol, ls + [layer])
      == LayerElements(ctx, launcher, ol, ls) + [LayerElement(ctx, launcher, ol, layer)]
  {
    assert (ls + [layer])[..|ls|] == ls;
  }

  /** The layer loop succeeds exactly when every layer gets through. */
  lemma {:induction false} CompileLayersOk(ctx: Context, launcher: Launcher, ol: Outline, n: nat)
    requires WellFormed(ol) && n <= |ol.layers|
    ensures CompileLayers(ctx, launcher, ol, n).Success? <==> AllPass(ol, n)
  {
    if n > 0 {
      CompileLayersOk(ctx, launcher, ol, n - 1);
      var layer := ol.layers[n - 1];
      assert TargetsIn(ol, layer);
      assert AllPass(ol, n) <==> AllPass(ol, n - 1) && Passes(ol, layer);
      match CompileLayers(ctx, launcher, ol, n - 1)
      case Failure(_) =>
      case Success(c) =>
        assert CompileLayers(ctx, launcher, ol, n) == CompileStep(ctx, launcher, ol, c, layer);
        CompileStepOk(ctx, launcher, ol, c, layer);
    }
  }

  /** One pass of the loop goes through exactly when the layer passes. */
  lemma CompileStepOk(ctx: Context, launcher: Launcher, ol: Outline, c: Compiled, layer: Layer)
    requires TargetsIn(ol, layer)
    ensures CompileStep(ctx, launcher, ol, c, layer).Success? <==> Passes(ol, layer)
  {
  }

  /** A submitted layer `n - 1` that gets through adds its `<layer>` and its records to those before it. */
  lemma CompileStepKept(ctx: Context, launcher: Launcher, ol: Outline, n: nat, c: Compiled)
    requires WellFormed(ol) && 0 < n <= |ol.layers| && Kept(ol.layers[n - 1])
    requires c == Compiled(LayerElements(ctx, launcher, ol, KeptLayers(ol.layers[..n - 1])), SubmittedDepends(ol, ol.layers[..n - 1]))
    requires CompileStep(ctx, launcher, ol, c, ol.layers[n - 1]).Success?
    ensures CompileStep(ctx, launcher, ol, c, ol.layers[n - 1]).value
      == Compiled(LayerElements(ctx, launcher, ol, KeptLayers(ol.layers[..n])), SubmittedDepends(ol, ol.layers[..n]))
  {
    var layer := ol.layers[n - 1];
    KeptLayersStep(ol.layers, n);
    SubmittedDependsStep(ol, n);
    var w := DependsWritten(ol, layer);
    assert CompileStep(ctx, launcher, ol, c, layer)
      == Success(Compiled(c.layers + [LayerElement(ctx, launcher, ol, layer)], c.depends + w.records));
    LayerElementsSnoc(ctx, launcher, ol, KeptLayers(ol.layers[..n - 1]), layer);
  }

  /** A skipped layer `n - 1` adds nothing. */
  lemma CompileStepSkipped(ctx: Context, launcher: Launcher, ol: Outline, n: nat, c: Compiled)
    requires WellFormed(ol) && 0 < n <= |ol.layers| && !Kept(ol.layers[n - 1])
    requires c == Compiled(LayerElements(ctx, launcher, ol, KeptLayers(ol.layers[..n - 1])), SubmittedDepends(ol, ol.layers[..n - 1]))
    ensures CompileStep(ctx, launcher, ol, c, ol.layers[n - 1])
      == Success(Compiled(LayerElements(ctx, launcher, ol, KeptLayers(ol.layers[..n])), SubmittedDepends(ol, ol.layers[..n])))
  {
    KeptLayersStep(ol.layers, n);
    SubmittedDependsStep(ol, n);
    assert CompileStep(ctx, launcher, ol, c, ol.layers[n - 1]) == Success(c);
  }

  /**
   * A loop that succeeds has written one `<layer>` per submitted layer, in
   * declaration order, and the `<depend>` records of those layers.
   */
  lemma {:induction false} CompileLayersValue(ctx: Context, launcher: Launcher, ol: Outline, n: nat)
    requires WellFormed(ol) && n <= |ol.layers|
    requires CompileLayers(ctx, launcher, ol, n).Success?
    ensures CompileLayers(ctx, launcher, ol, n).value
      == Compiled(LayerElements(ctx, launcher, ol, KeptLayers(ol.layers[..n])), SubmittedDepends(ol, ol.layers[..n]))
  {
    if n == 0 {
      assert ol.layers[..0] == [];
    } else {
      assert CompileLayers(ctx, launcher, ol, n - 1).Success?;
      var c := CompileLayers(ctx, launcher, ol, n - 1).value;
      assert CompileLayers(ctx, launcher, ol, n) == CompileStep(ctx, launcher, ol, c, ol.layers[n - 1]);
      CompileLayersValue(ctx, launcher, ol, n - 1);
      if Kept(ol.layers[n - 1]) {
        CompileStepKept(ctx, launcher, ol, n, c);
      } else {
        CompileStepSkipped(ctx, launcher, ol, n, c);
      }
    }
  }

  /** Layer `k` is the first one that does not get through, and it fails with `e`. */
  predicate FirstFailure(ol: Outline, k: nat, e: SerializeError)
    requires WellFormed(ol) && k < |ol.layers|
  {
    AllPass(ol, k) && Kept(ol.layers[k]) && DependsWritten(ol, ol.layers[k]).error == Some(e)
  }

  /** When the layer loop fails, the error is the first failing submitted layer's. */
  lemma {:induction false} CompileLayersFailure(ctx: Context, launcher: Launcher, ol: Outline, n: nat)
    requires WellFormed(ol) && n <= |ol.layers|
    requires CompileLayers(ctx, launcher, ol, n).Failure?
    ensures exists k :: 0 <= k < n && FirstFailure(ol, k, CompileLayers(ctx, launcher, ol, n).error)
  {
    var e := CompileLayers(ctx, launcher, ol, n).error;
    if CompileLayers(ctx, launcher, ol, n - 1).Failure? {
      assert CompileLayers(ctx, launcher, ol, n - 1).error == e;
      CompileLayersFailure(ctx, launcher, ol, n - 1);
      var k :| 0 <= k < n - 1 && FirstFailure(ol, k, e);
      assert 0 <= k < n && FirstFailure(ol, k, e);
    } else {
      var c := CompileLayers(ctx, launcher, ol, n - 1).value;
      var layer := ol.layers[n - 1];
      assert CompileStep(ctx, launcher, ol, c, layer) == Failure(e);
      CompileLayersOk(ctx, launcher, ol, n - 1);
      assert FirstFailure(ol, n - 1, e);
    }
  }

  /**
   * serialize succeeds exactly when every layer gets through and at least one
   * is submitted; it raises "no launchable layers" exactly when every layer
   * gets through and none is submitted.
   */
  lemma SerializeOutcome(ctx: Context, launcher: Launcher, ol: Outline)
    requires WellFormed(ol)
    ensures SpecDocument(ctx, launcher, ol).Success? <==> AllPass(ol, |ol.layers|) && KeptLayers(ol.layers) != []
    ensures SpecDocument(ctx, launcher, ol) == Failure(NoLaunchableLayers(ol.frameRange))
            <==> AllPass(ol, |ol.layers|) && KeptLayers(ol.layers) == []
    ensures !AllPass(ol, |ol.layers|) ==>
      SpecDocument(ctx, launcher, ol).Failure? && SpecDocument(ctx, launcher, ol).error.NoFrameToDependOn?
  {
    var n := |ol.layers|;
    CompileLayersOk(ctx, launcher, ol, n);
    if CompileLayers(ctx, launcher, ol, n).Success? {
      CompileLayersValue(ctx, launcher, ol, n);
    }
    assert ol.layers[..n] == ol.layers;
    if !AllPass(ol, n) {
      CompileLayersFailure(ctx, launcher, ol, n);
      var k :| 0 <= k < n && FirstFailure(ol, k, CompileLayers(ctx, launcher, ol, n).error);
      DependsWrittenFailure(ol, ol.layers[k]);
    }
  }

  /**
   * A document serialize returns holds the fixed prolog, then a `<spec>`
   * whose `<layers>` are the `<layer>` elements of the submitted layers and
   * whose `<depends>` are their dependency records.
   */
  lemma SerializeDocument(ctx: Context, launcher: Launcher, ol: Outline)
    requires WellFormed(ol) && SpecDocument(ctx, launcher, ol).Success?
    ensures var doc := SpecDocument(ctx, launcher, ol).value;
      && doc.declaration == XML_DECLARATION && doc.doctype == DOCTYPE
      && doc.root == SpecRoot(ctx, launcher, ol,
           Compiled(LayerElements(ctx, launcher, ol, KeptLayers(ol.layers)), SubmittedDepends(ol, ol.layers)))
  {
    CompileLayersValue(ctx, launcher, ol, |ol.layers|);
    assert ol.layers[..|ol.layers|] == ol.layers;
  }

  /**
   * Under `<layers>` there is exactly one `<layer>` per submitted layer,
   * named and typed after it, in declaration order, and nothing else.
   */
  lemma LayersOfSubmitted(ctx: Context, launcher: Launcher, ol: Outline, ls: seq<Layer>)
    ensures var es := LayerElements(ctx, launcher, ol, ls);
      && Tagged(es, "layer") == es
      && |es| == |ls|
      && forall k :: 0 <= k < |ls| ==>
           es[k] == LayerElement(ctx, launcher, ol, ls[k])
           && es[k].attrs == map["name" := ls[k].name, "type" := ls[k].layerType]
  {
    var es := LayerElements(ctx, launcher, ol, ls);
    forall k | 0 <= k < |ls|
      ensures es[k] == LayerElement(ctx, launcher, ol, ls[k])
    {
      LayerElementsIndex(ctx, launcher, ol, ls, k);
    }
    TaggedAll(es, "layer");
  }

  /**
   * The `<spec>` element: the header, then `<job>` (its settings, `<env>`,
   * `<layers>`), then `<depends>` last.
   */
  lemma SpecRootShape(ctx: Context, launcher: Launcher, ol: Outline, c: Compiled)
    ensures var root := SpecRoot(ctx, launcher, ol, c);
      var h := HeaderElements(ctx, launcher);
      var s := JobSettings(ctx, launcher, ol);
      && root.tag == "spec"
      && |root.children| == |h| + 2
      && root.children[..|h|] == h
      && root.children[|h|].tag == "job" && root.children[|h|].attrs == map["name" := ol.name]
      && root.children[|h|].children == s + [Element("env", map[], None, EnvKeys(ol.env)), Element("layers", map[], None, c.layers)]
      && root.children[|h| + 1] == Element("depends", map[], None, c.depends)
  {
    var h := HeaderElements(ctx, launcher);
    var job := Element("job", map["name" := ol.name], None,
      JobSettings(ctx, launcher, ol) + [Element("env", map[], None, EnvKeys(ol.env)), Element("layers", map[], None, c.layers)]);
    var depends := Element("depends", map[], None, c.depends);
    assert SpecRoot(ctx, launcher, ol, c).children == h + [job] + [depends];
    assert (h + [job] + [depends])[..|h|] == h;
  }

  // ---------------------------------------------------- header and job settings

  /**
   * The header names the user the job runs as (the `user` flag when truthy,
   * else the current user), and holds an `<email>` to the current user at
   * the site's domain exactly when `nomail` is not set.
   */
  lemma HeaderFields(ctx: Context, launcher: Launcher)
    ensures var h := HeaderElements(ctx, launcher);
      && Tagged(h, "user") == [Leaf("user", Some(if Truthy(launcher.user) then launcher.user.value else ctx.user))]
      && Tagged(h, "email") == (if launcher.nomail then [] else [Leaf("email", Some(ctx.user + "@" + ctx.domain))])
      && h[0] == Leaf("facility", launcher.facility) && h[1] == Leaf("show", Some(ctx.show))
      && h[2] == Leaf("shot", launcher.shot) && h[|h| - 1] == Leaf("uid", Some(IntToDecimal(ctx.uid)))
  {
    var h := HeaderElements(ctx, launcher);
    TaggedUnique(h, 3, "user");
    if launcher.nomail {
      TaggedNone(h, "email");
    } else {
      TaggedUnique(h, 4, "email");
    }
  }

  /**
   * The job settings: paused, retries and auto-eat first, the localbook hint
   * when there is one, and an `<os>` from the `os` option, else `OL_OS`, else none.
   */
  lemma JobSettingsFields(ctx: Context, launcher: Launcher, ol: Outline)
    ensures var s := JobSettings(ctx, launcher, ol);
      && s[0] == Leaf("paused", Some(BoolToStr(launcher.pause)))
      && s[1] == Leaf("maxretries", Some(IntToDecimal(launcher.maxRetries)))
      && s[2] == Leaf("autoeat", Some(BoolToStr(launcher.autoEat)))
      && Tagged(s, "localbook") == (if ol.localbook != map[] then [Element("localbook", ol.localbook, None, [])] else [])
      && Tagged(s, "os") == (if Truthy(launcher.os) then [Leaf("os", launcher.os)]
                             else if Truthy(ctx.olOs) then [Leaf("os", ctx.olOs)]
                             else [])
  {
    var s := JobSettings(ctx, launcher, ol);
    if ol.localbook != map[] {
      TaggedUnique(s, 3, "localbook");
    } else {
      TaggedNone(s, "localbook");
    }
    if OsTag(ctx, launcher).Some? {
      TaggedUnique(s, |s| - 1, "os");
    } else {
      TaggedNone(s, "os");
    }
  }

  // ------------------------------------------------------------ layer fields

  lemma TaggedOptional(tag: string, text: Option<string>, t: string)
    ensures Tagged(Optional(tag, text), t) == if tag == t then Optional(tag, text) else []
  {
    if text.Some? {
      TaggedSingle(Leaf(tag, text), t);
    }
  }

  /** A tag other than the fixed children of `<layer>` is found among its options only. */
  lemma LayerChildrenTagged(ctx: Context, launcher: Launcher, ol: Outline, layer: Layer, t: string)
    requires t != "cmd" && t != "range" && t != "chunk" && t != "services"
    ensures Tagged(LayerElement(ctx, launcher, ol, layer).children, t) == Tagged(LayerOptions(ctx, layer), t)
  {
    var head := [Leaf("cmd", Some(JoinWith(" ", CommandTokens(ctx, launcher, ol, layer)))),
                 Leaf("range", layer.frameRange), Leaf("chunk", Some(IntToDecimal(layer.chunk)))];
    var services := [Element("services", map[], None, [Leaf("service", Some(ServiceName(layer.service)))])];
    assert LayerElement(ctx, launcher, ol, layer).children == head + LayerOptions(ctx, layer) + services;
    TaggedBetween(head, LayerOptions(ctx, layer), services, t);
  }

  /** Each option of a layer is written once when set and is absent otherwise. */
  lemma LayerOptionsTagged(ctx: Context, layer: Layer, t: string)
    requires t in {"cores", "threadable", "memory", "tags"}
    ensures Tagged(LayerOptions(ctx, layer), t)
      == if t == "cores" then Optional("cores", layer.cores)
         else if t == "threadable" then Optional("threadable", ThreadableText(layer))
         else if t == "memory" then Optional("memory", layer.memory)
         else Optional("tags", TagsText(ctx, layer))
  {
    var a, b, c, d := Optional("cores", layer.cores), Optional("threadable", ThreadableText(layer)),
                      Optional("memory", layer.memory), Optional("tags", TagsText(ctx, layer));
    TaggedConcat(a + b + c, d, t);
    TaggedConcat(a + b, c, t);
    TaggedConcat(a, b, t);
    TaggedOptional("cores", layer.cores, t);
    TaggedOptional("threadable", ThreadableText(layer), t);
    TaggedOptional("memory", layer.memory, t);
    TaggedOptional("tags", TagsText(ctx, layer), t);
  }

  /**
   * A `<layer>` holds `<threadable>` exactly when the argument is set, as
   * "True" or "False"; `<memory>` exactly when set; and `<tags>` from
   * `OL_TAG_OVERRIDE` when it is set, else from the layer's own tags, scrubbed either way.
   */
  lemma LayerOptionalFields(ctx: Context, launcher: Launcher, ol: Outline, layer: Layer)
    ensures var children := LayerElement(ctx, launcher, ol, layer).children;
      && Tagged(children, "threadable")
         == (if layer.threadable.Some? then [Leaf("threadable", Some(BoolToStr(layer.threadable.value)))] else [])
      && Tagged(children, "memory") == (if layer.memory.Some? then [Leaf("memory", layer.memory)] else [])
      && Tagged(children, "tags")
         == (if Truthy(ctx.tagOverride) then [Leaf("tags", Some(ScrubTags(TagString(ctx.tagOverride.value))))]
             else if layer.tags.Some? && TagsTruthy(layer.tags.value) then [Leaf("tags", Some(ScrubTags(layer.tags.value)))]
             else [])
  {
    LayerChildrenTagged(ctx, launcher, ol, layer, "threadable");
    LayerOptionsTagged(ctx, layer, "threadable");
    LayerChildrenTagged(ctx, launcher, ol, layer, "memory");
    LayerOptionsTagged(ctx, layer, "memory");
    LayerChildrenTagged(ctx, launcher, ol, layer, "tags");
    LayerOptionsTagged(ctx, layer, "tags");
  }

  /** A `<layer>` starts with its command, range and chunk size and ends with exactly one `<service>`. */
  lemma LayerFixedFields(ctx: Context, launcher: Launcher, ol: Outline, layer: Layer)
    ensures var e := LayerElement(ctx, launcher, ol, layer);
      && e.tag == "layer" && e.attrs == map["name" := layer.name, "type" := layer.layerType]
      && |e.children| >= 4
      && e.children[0] == Leaf("cmd", Some(JoinWith(" ", CommandTokens(ctx, launcher, ol, layer))))
      && e.children[1] == Leaf("range", layer.frameRange)
      && e.children[2] == Leaf("chunk", Some(IntToDecimal(layer.chunk)))
      && e.children[|e.children| - 1].tag == "services"
      && Tagged(e.children[|e.children| - 1].children, "service") == [Leaf("service", Some(ServiceName(layer.service)))]
  {
    var head := [Leaf("cmd", Some(JoinWith(" ", CommandTokens(ctx, launcher, ol, layer)))),
                 Leaf("range", layer.frameRange), Leaf("chunk", Some(IntToDecimal(layer.chunk)))];
    var opts := LayerOptions(ctx, layer);
    var service := Leaf("service", Some(ServiceName(layer.service)));
    var services := Element("services", map[], None, [service]);
    var children := LayerElement(ctx, launcher, ol, layer).children;
    assert children == head + opts + [services];
    assert children[..3] == head;
    assert children[|children| - 1] == services;
    TaggedSingle(service, "service");
  }

  // ------------------------------------------------------------------ service

  /**
   * The service name is the text before the first comma (all of it when
   * there is no comma), stripped.
   */
  lemma ServiceFirstToken(s: string, i: nat)
    requires i <= |s| && ',' !in s[..i] && (i == |s| || s[i] == ',')
    ensures ServiceName(Some(s)) == Strip(s[..i])
  {
    SplitNoSeparator(s[..i], ',');
    if i < |s| {
      assert s == s[..i] + [','] + s[i + 1..];
      SplitConcat(s[..i], s[i + 1..], ',');
    } else {
      assert s[..i] == s;
    }
  }

  /** A single service is written as it is, stripped. */
  lemma ServiceSingle()
    ensures ServiceName(Some(" shell ")) == "shell"
  {
    ServiceFirstToken(" shell ", 7);
    assert " shell "[..7] == " " + "shell" + " ";
    StripPadded(" ", "shell", " ");
  }

  /** The service name holds no comma and no whitespace at either end. */
  lemma ServiceNameClean(service: Option<string>)
    ensures var r := ServiceName(service);
      && ',' !in r && (r == [] || (!IsSpace(r[0]) && !IsSpace(r[|r| - 1])))
  {
    if service.Some? {
      var piece := Split(service.value, ',')[0];
      SplitPieces(service.value, ',');
      assert ',' !in piece;
      StripLeftShape(piece);
      var l := StripLeft(piece);
      StripRightShape(l);
      StripEnds(piece);
      assert ',' !in l;
    }
  }
}
