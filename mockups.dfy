/**
 * The resumable photo/scene loop of `main` (MockupGenerator.py).  The output
 * folder is the set of names it holds; opening a photo, the API and the clock are
 * inputs (`World`); `time.sleep` and the calls become a trace of events.
 */
module Mockups {
  import opened Base
  import Text
  import Framing
  import Gemini

  /** The keys of `BASE_SCENE_PROMPTS`, in insertion order. */
  const SCENES: seq<string> := ["etsy_cover_mockup", "living_room", "living_room_v2", "bedroom", "office"]
  const DELAY_BETWEEN_SCENES: nat := 1
  const DELAY_BETWEEN_PHOTOS: nat := 1

  /** What the run does that can be observed from outside. */
  datatype Event =
    | Frame(photo: string)                                   // add_frame_and_mat is called
    | Call(scene: string, output: string, reply: Gemini.Reply)  // generate_mockup_with_gemini is called
    | Save(output: string)                                   // a mockup is written
    | SceneSleep(seconds: nat)                               // time.sleep between two scenes of a photo
    | PhotoSleep(seconds: nat)                               // time.sleep between two photos

  /**
   * The environment: the API key, what opening a photo yields (its size, or
   * `None` when PIL fails), the outcome of each POST for a photo, scene and
   * attempt, and whether a rate limit is retried as intended or handled as written.
   */
  datatype World = World(
    apiKey: string,
    open: string -> Option<Size>,
    server: (string, string, nat) -> Gemini.Outcome,
    client: Gemini.Client)
  {
    /** The server as one call for `(file, scene)` sees it: attempt number to outcome. */
    function ServerFor(file: string, scene: string): nat -> Gemini.Outcome
    {
      (k: nat) => server(file, scene, k)
    }
  }

  /** `os.path.splitext(f)[0]` for a name without '/': drop the last extension, unless only dots precede it. */
  function Stem(f: string): (r: string)
    ensures |r| <= |f| && r == f[..|r|]
  {
    var d := LastDot(f);
    if 0 <= d && exists k :: 0 <= k < d && f[k] != '.' then f[..d] else f
  }

  /** The index of the last '.' in `s`, or -1. */
  function LastDot(s: string): (d: int)
    ensures -1 <= d < |s|
    ensures d >= 0 ==> s[d] == '.'
    ensures forall k :: d < k < |s| ==> s[k] != '.'
  {
    if s == [] then -1
    else if s[|s| - 1] == '.' then |s| - 1
    else LastDot(s[..|s| - 1])
  }

  /** The stem of `name + ext` is `name` when `ext` is a single extension and `name` is not only dots. */
  lemma StemOfExtension(name: string, ext: string)
    requires |ext| >= 1 && ext[0] == '.' && '.' !in ext[1..]
    requires exists k :: 0 <= k < |name| && name[k] != '.'
    ensures Stem(name + ext) == name
  {
    var f := name + ext;
    assert forall k :: |name| < k < |f| ==> f[k] == ext[k - |name|] && ext[k - |name|] in ext[1..];
    assert f[..|name|] == name;
    var k :| 0 <= k < |name| && name[k] != '.';
    assert f[k] != '.';
  }

  /** `f"{stem}_{scene_name}_mockup.jpg"`. */
  function OutputName(file: string, scene: string): string
  {
    Stem(file) + "_" + scene + "_mockup.jpg"
  }

  /** An output name is the photo's stem, then `_` and the scene, then `_mockup.jpg`. */
  lemma OutputNameShape(file: string, scene: string)
    ensures Text.EndsWith(OutputName(file, scene), "_mockup.jpg")
    ensures Text.StartsWith(OutputName(file, scene), Stem(file) + "_" + scene)
  {
    var out := OutputName(file, scene);
    assert out[|out| - |"_mockup.jpg"|..] == "_mockup.jpg";
    assert out[..|Stem(file) + "_" + scene|] == Stem(file) + "_" + scene;
  }

  /** The listing filtered to image names, in listing order, as `image_files` is built. */
  function ImageFiles(listing: seq<string>): (files: seq<string>)
    ensures forall f :: f in files <==> f in listing && Text.HasImageExtension(Text.Lower(f))
    ensures |files| <= |listing|
  {
    if listing == [] then []
    else
      var rest := ImageFiles(listing[..|listing| - 1]);
      var f := listing[|listing| - 1];
      assert listing == listing[..|listing| - 1] + [f];
      if Text.HasImageExtension(Text.Lower(f)) then rest + [f] else rest
  }

  /** The image files of one name: the name, when it has an image extension. */
  lemma ImageFilesOfOne(f: string)
    ensures ImageFiles([f]) == if Text.HasImageExtension(Text.Lower(f)) then [f] else []
  {
    assert [f][..0] == [];
  }

  /** The filter keeps the listing's order: the image files of a concatenation are concatenated. */
  lemma {:induction false} ImageFilesAppend(a: seq<string>, b: seq<string>)
    ensures ImageFiles(a + b) == ImageFiles(a) + ImageFiles(b)
    decreases |b|
  {
    if b == [] {
      assert a + b == a;
    } else {
      var init := b[..|b| - 1];
      assert (a + b)[..|a + b| - 1] == a + init;
      ImageFilesAppend(a, init);
    }
  }

  /** The scene loop's variables for one photo: `framed_art`, whether it broke out, the outputs, the events. */
  datatype PhotoState = PhotoState(framed: Option<Size>, stopped: bool, outputs: set<string>, events: seq<Event>)

  /** One iteration of the scene loop for scene `j`. */
  function SceneStep(w: World, file: string, st: PhotoState, j: nat): PhotoState
    requires j < |SCENES|
  {
    if st.stopped || OutputName(file, SCENES[j]) in st.outputs then st
    else if st.framed.Some? then Request(w, file, st, j)
    else
      var framed := Framing.FrameAndMat(w.open(file));
      var st' := PhotoState(framed, framed.None?, st.outputs, st.events + [Frame(file)]);
      if framed.None? then st' else Request(w, file, st', j)
  }

  /** The reply of `generate_mockup_with_gemini` for scene `j` of `file`. */
  function ReplyFor(w: World, file: string, j: nat): Gemini.Reply
    requires j < |SCENES|
  {
    Gemini.Respond(w.client, w.apiKey, w.ServerFor(file, SCENES[j]))
  }

  /** The request for scene `j` once the photo is framed: call, save on success, then the scene sleep. */
  function Request(w: World, file: string, st: PhotoState, j: nat): PhotoState
    requires j < |SCENES|
  {
    var scene := SCENES[j];
    var output := OutputName(file, scene);
    var reply := ReplyFor(w, file, j);
    var saved := reply.image.Some?;
    PhotoState(
      st.framed,
      false,
      if saved then st.outputs + {output} else st.outputs,
      st.events + [Call(scene, output, reply)]
      + (if saved then [Save(output)] else [])
      + (if j < |SCENES| - 1 then [SceneSleep(DELAY_BETWEEN_SCENES)] else []))
  }

  /** The scene loop after its first `n` iterations. */
  function ScenesUpTo(w: World, file: string, outputs: set<string>, n: nat): PhotoState
    requires n <= |SCENES|
  {
    if n == 0 then PhotoState(None, false, outputs, [])
    else SceneStep(w, file, ScenesUpTo(w, file, outputs, n - 1), n - 1)
  }

  /** The whole scene loop for one photo. */
  function PhotoRun(w: World, file: string, outputs: set<string>): PhotoState
  {
    ScenesUpTo(w, file, outputs, |SCENES|)
  }

  datatype RunState = RunState(outputs: set<string>, events: seq<Event>)

  /** The photo loop after its first `i` photos, with a photo sleep after each but the last. */
  function RunUpTo(w: World, files: seq<string>, outputs: set<string>, i: nat): RunState
    requires i <= |files|
  {
    if i == 0 then RunState(outputs, [])
    else
      var prev := RunUpTo(w, files, outputs, i - 1);
      var photo := PhotoRun(w, files[i - 1], prev.outputs);
      RunState(photo.outputs,
        prev.events + photo.events + (if i - 1 < |files| - 1 then [PhotoSleep(DELAY_BETWEEN_PHOTOS)] else []))
  }

  /**
   * `main` from the folder listing on: nothing when the input folder is missing or
   * holds no images; otherwise the outputs and events of the photo loop.
   */
  method RunMockups(w: World, inputExists: bool, listing: seq<string>, existing: set<string>)
    returns (outputs: set<string>, trace: seq<Event>)
    ensures !inputExists || ImageFiles(listing) == [] ==> outputs == existing && trace == []
    ensures inputExists ==>
      RunState(outputs, trace) == RunUpTo(w, ImageFiles(listing), existing, |ImageFiles(listing)|)
  {
    outputs, trace := existing, [];
    if !inputExists {
      return;
    }
    var files := ImageFiles(listing);
    if files == [] {
      return;
    }
    outputs, trace := RunPhotos(w, files, existing);
  }

  /** The photo loop over `image_files`, with a photo sleep after each photo but the last. */
  method RunPhotos(w: World, files: seq<string>, existing: set<string>)
    returns (outputs: set<string>, trace: seq<Event>)
    ensures RunState(outputs, trace) == RunUpTo(w, files, existing, |files|)
  {
    outputs, trace := existing, [];
    var i := 0;
    while i < |files|
      invariant 0 <= i <= |files|
      invariant RunState(outputs, trace) == RunUpTo(w, files, existing, i)
    {
      ghost var prev := RunState(outputs, trace);
      var events;
      outputs, events := RunPhoto(w, files[i], outputs);
      trace := trace + events;
      if i < |files| - 1 {
        trace := trace + [PhotoSleep(DELAY_BETWEEN_PHOTOS)];
      }
      assert RunUpTo(w, files, existing, i + 1) == RunState(outputs, trace);
      i := i + 1;
    }
  }

  /**
   * The scene loop for one photo: skip scenes whose output exists, frame lazily
   * before the first missing one, break out when framing fails, and sleep after
   * every processed scene but the last.
   */
  method RunPhoto(w: World, file: string, existing: set<string>)
    returns (outputs: set<string>, events: seq<Event>)
    ensures outputs == PhotoRun(w, file, existing).outputs
    ensures events == PhotoRun(w, file, existing).events
  {
    outputs, events := existing, [];
    var framed: Option<Size> := None;
    var j := 0;
    while j < |SCENES|
      invariant 0 <= j <= |SCENES|
      invariant ScenesUpTo(w, file, existing, j) == PhotoState(framed, false, outputs, events)
    {
      ghost var st := PhotoState(framed, false, outputs, events);
      assert ScenesUpTo(w, file, existing, j + 1) == SceneStep(w, file, st, j);
      var scene := SCENES[j];
      var output := OutputName(file, scene);
      if output in outputs {
        j := j + 1;
        continue;
      }
      if framed.None? {
        events := events + [Frame(file)];
        framed := Framing.FrameAndMat(w.open(file));
        if framed.None? {
          assert SceneStep(w, file, st, j) == PhotoState(None, true, outputs, events);
          StoppedStays(w, file, existing, j + 1, |SCENES|);
          return;
        }
      }
      ghost var framedState := PhotoState(framed, false, outputs, events);
      var reply;
      if w.client == Gemini.Intended {
        reply := Gemini.GenerateMockup(w.apiKey, w.ServerFor(file, scene));
      } else {
        reply := Gemini.GenerateAsWritten(w.apiKey, w.ServerFor(file, scene));
      }
      events := events + [Call(scene, output, reply)];
      if reply.image.Some? {
        outputs := outputs + {output};
        events := events + [Save(output)];
      }
      if j < |SCENES| - 1 {
        events := events + [SceneSleep(DELAY_BETWEEN_SCENES)];
      }
      assert Request(w, file, framedState, j) == PhotoState(framed, false, outputs, events);
      j := j + 1;
    }
  }

  /** Once the scene loop has broken out, later iterations change nothing. */
  lemma {:induction false} StoppedStays(w: World, file: string, outputs: set<string>, m: nat, n: nat)
    requires m <= n <= |SCENES| && ScenesUpTo(w, file, outputs, m).stopped
    ensures ScenesUpTo(w, file, outputs, n) == ScenesUpTo(w, file, outputs, m)
    decreases n
  {
    if n > m {
      StoppedStays(w, file, outputs, m, n - 1);
    }
  }

  /** The kinds of event that are counted. */
  datatype Kind = FrameKind | CallKind | SceneSleepKind | PhotoSleepKind

  predicate Is(e: Event, kind: Kind)
  {
    match kind
    case FrameKind => e.Frame?
    case CallKind => e.Call?
    case SceneSleepKind => e.SceneSleep?
    case PhotoSleepKind => e.PhotoSleep?
  }

  /** The number of events of one kind. */
  function Count(events: seq<Event>, kind: Kind): nat
  {
    if events == [] then 0
    else Count(events[..|events| - 1], kind) + (if Is(events[|events| - 1], kind) then 1 else 0)
  }

  lemma {:induction false} CountAppend(a: seq<Event>, b: seq<Event>, kind: Kind)
    ensures Count(a + b, kind) == Count(a, kind) + Count(b, kind)
    decreases |b|
  {
    if b == [] {
      assert a + b == a;
    } else {
      assert (a + b)[..|a + b| - 1] == a + b[..|b| - 1];
      CountAppend(a, b[..|b| - 1], kind);
    }
  }

  lemma CountSingle(e: Event, kind: Kind)
    ensures Count([e], kind) == if Is(e, kind) then 1 else 0
  {
    assert [e][..0] == [];
  }

  /** Some scene of `file` has no output yet among the first `n`. */
  ghost predicate SomeMissing(file: string, outputs: set<string>, n: nat)
    requires n <= |SCENES|
  {
    exists k :: 0 <= k < n && OutputName(file, SCENES[k]) !in outputs
  }

  /** What the scene loop knows about framing after `n` iterations. */
  ghost predicate FramingInvariant(w: World, file: string, outputs0: set<string>, n: nat, st: PhotoState)
    requires n <= |SCENES|
  {
    var started := st.framed.Some? || st.stopped;
    && outputs0 <= st.outputs
    && (started <==> SomeMissing(file, outputs0, n))
    && (!started ==> st.events == [] && st.outputs == outputs0)
    && (st.framed.Some? ==> !st.stopped && st.framed == Framing.FrameAndMat(w.open(file)))
    && (st.stopped ==> Framing.FrameAndMat(w.open(file)).None? && st.events == [Frame(file)] && st.outputs == outputs0)
  }

  lemma {:induction false} FramingHolds(w: World, file: string, outputs0: set<string>, n: nat)
    requires n <= |SCENES|
    ensures FramingInvariant(w, file, outputs0, n, ScenesUpTo(w, file, outputs0, n))
  {
    if n > 0 {
      FramingHolds(w, file, outputs0, n - 1);
      var st := ScenesUpTo(w, file, outputs0, n - 1);
      var output := OutputName(file, SCENES[n - 1]);
      if !(st.framed.Some? || st.stopped) && output in st.outputs {
        assert output in outputs0;
      }
      if !st.stopped && output !in st.outputs {
        assert output !in outputs0;
      }
    }
  }

  /** The events appended by one requested scene. */
  function RequestEvents(w: World, file: string, j: nat): seq<Event>
    requires j < |SCENES|
  {
    var st := Request(w, file, PhotoState(None, false, {}, []), j);
    st.events
  }

  lemma RequestAppends(w: World, file: string, st: PhotoState, j: nat)
    requires j < |SCENES|
    ensures Request(w, file, st, j).events == st.events + RequestEvents(w, file, j)
    ensures var output := OutputName(file, SCENES[j]);
      Request(w, file, st, j).outputs == st.outputs || Request(w, file, st, j).outputs == st.outputs + {output}
  {
  }

  /** One requested scene adds one call, no framing, and a sleep unless it is the last scene. */
  lemma RequestCounts(w: World, file: string, j: nat)
    requires j < |SCENES|
    ensures var tail := RequestEvents(w, file, j);
      && Count(tail, FrameKind) == 0 && Count(tail, CallKind) == 1
      && Count(tail, SceneSleepKind) == (if j < |SCENES| - 1 then 1 else 0)
  {
    var scene := SCENES[j];
    var output := OutputName(file, scene);
    var reply := ReplyFor(w, file, j);
    var saves: seq<Event> := if reply.image.Some? then [Save(output)] else [];
    var sleeps: seq<Event> := if j < |SCENES| - 1 then [SceneSleep(DELAY_BETWEEN_SCENES)] else [];
    var call := Call(scene, output, reply);
    assert RequestEvents(w, file, j) == [call] + saves + sleeps;
    CountTail(call, saves, sleeps, FrameKind);
    CountTail(call, saves, sleeps, CallKind);
    CountTail(call, saves, sleeps, SceneSleepKind);
  }

  /** The count of a call followed by at most one save and at most one sleep. */
  lemma CountTail(call: Event, saves: seq<Event>, sleeps: seq<Event>, kind: Kind)
    requires saves == [] || (|saves| == 1 && saves[0].Save?)
    requires sleeps == [] || (|sleeps| == 1 && sleeps[0].SceneSleep?)
    ensures Count([call] + saves + sleeps, kind)
      == Count([call], kind) + Count(saves, kind) + Count(sleeps, kind)
  {
    CountAppend([call], saves, kind);
    CountAppend([call] + saves, sleeps, kind);
  }

  /** Every call and save of one requested scene names that scene and its output. */
  lemma RequestTargets(w: World, file: string, j: nat)
    requires j < |SCENES|
    ensures var tail := RequestEvents(w, file, j);
      && (forall e :: e in tail && (e.Call? || e.Save?) ==> e.output == OutputName(file, SCENES[j]))
      && (forall e :: e in tail && e.Call? ==> e.scene == SCENES[j])
      && (forall e :: e in tail ==> !e.PhotoSleep?)
  {
  }

  /** The events one iteration of the scene loop appends. */
  function StepEvents(w: World, file: string, st: PhotoState, j: nat): seq<Event>
    requires j < |SCENES|
  {
    if st.stopped || OutputName(file, SCENES[j]) in st.outputs then []
    else if st.framed.Some? then RequestEvents(w, file, j)
    else if Framing.FrameAndMat(w.open(file)).None? then [Frame(file)]
    else [Frame(file)] + RequestEvents(w, file, j)
  }

  lemma StepAppends(w: World, file: string, st: PhotoState, j: nat)
    requires j < |SCENES|
    ensures SceneStep(w, file, st, j).events == st.events + StepEvents(w, file, st, j)
  {
    if !st.stopped && OutputName(file, SCENES[j]) !in st.outputs {
      if st.framed.Some? {
        RequestAppends(w, file, st, j);
      } else if Framing.FrameAndMat(w.open(file)).Some? {
        var st1 := PhotoState(Framing.FrameAndMat(w.open(file)), false, st.outputs, st.events + [Frame(file)]);
        RequestAppends(w, file, st1, j);
      }
    }
  }

  /** After an iteration the photo has started (been framed, or failed to be) exactly when it had before or this scene was missing. */
  lemma StepStarts(w: World, file: string, st: PhotoState, j: nat)
    requires j < |SCENES|
    requires st.framed.None? || !st.stopped
    ensures var st' := SceneStep(w, file, st, j);
      && (st'.framed.None? || !st'.stopped)
      && (st'.framed.Some? || st'.stopped <==>
            st.framed.Some? || st.stopped || OutputName(file, SCENES[j]) !in st.outputs)
  {
  }

  /** An iteration frames the photo only when it is not framed yet and its scene is missing. */
  lemma StepFrames(w: World, file: string, st: PhotoState, j: nat)
    requires j < |SCENES|
    ensures Count(StepEvents(w, file, st, j), FrameKind)
      == (if !st.stopped && OutputName(file, SCENES[j]) !in st.outputs && st.framed.None? then 1 else 0)
  {
    RequestCounts(w, file, j);
    CountSingle(Frame(file), FrameKind);
    CountAppend([Frame(file)], RequestEvents(w, file, j), FrameKind);
  }

  /** An iteration requests its scene exactly when it is missing and the photo is framed; a sleep follows unless it is the last scene. */
  lemma StepCalls(w: World, file: string, st: PhotoState, j: nat)
    requires j < |SCENES|
    ensures var added := StepEvents(w, file, st, j);
      var requested := !st.stopped && OutputName(file, SCENES[j]) !in st.outputs
        && (st.framed.Some? || Framing.FrameAndMat(w.open(file)).Some?);
      && Count(added, CallKind) == (if requested then 1 else 0)
      && Count(added, SceneSleepKind) == (if requested && j < |SCENES| - 1 then 1 else 0)
      && (requested <==> exists e :: e in added && e.Call?)
  {
    var added := StepEvents(w, file, st, j);
    RequestCounts(w, file, j);
    var tail := RequestEvents(w, file, j);
    CountSingle(Frame(file), SceneSleepKind);
    CountSingle(Frame(file), CallKind);
    CountAppend([Frame(file)], tail, SceneSleepKind);
    CountAppend([Frame(file)], tail, CallKind);
    CallCounted(added);
  }

  /** Every call and save an iteration appends names its scene and that scene's output. */
  lemma StepTargets(w: World, file: string, st: PhotoState, j: nat)
    requires j < |SCENES|
    ensures var added := StepEvents(w, file, st, j);
      && (forall e :: e in added && (e.Call? || e.Save?) ==> e.output == OutputName(file, SCENES[j]))
      && (forall e :: e in added && e.Call? ==> e.scene == SCENES[j])
      && (forall e :: e in added ==> !e.PhotoSleep?)
  {
    RequestTargets(w, file, j);
  }

  /** A sequence with no call has a call count of zero, and conversely. */
  lemma {:induction false} CallCounted(events: seq<Event>)
    ensures Count(events, CallKind) > 0 <==> exists e :: e in events && e.Call?
  {
    if events != [] {
      var init := events[..|events| - 1];
      CallCounted(init);
      assert forall e :: e in init ==> e in events;
      assert events == init + [events[|events| - 1]];
    }
  }

  /** What the scene loop knows about its events after `n` iterations. */
  ghost predicate EventsInvariant(w: World, file: string, outputs0: set<string>, n: nat, st: PhotoState)
    requires n <= |SCENES|
  {
    && (forall e :: e in st.events && (e.Call? || e.Save?) ==> e.output !in outputs0)
    && (forall e :: e in st.events && e.Call? ==> e.scene in SCENES[..n])
    && (forall e :: e in st.events ==> !e.PhotoSleep?)
  }

  lemma {:induction false} EventsHold(w: World, file: string, outputs0: set<string>, n: nat)
    requires n <= |SCENES|
    ensures EventsInvariant(w, file, outputs0, n, ScenesUpTo(w, file, outputs0, n))
  {
    if n > 0 {
      EventsHold(w, file, outputs0, n - 1);
      FramingHolds(w, file, outputs0, n - 1);
      var st := ScenesUpTo(w, file, outputs0, n - 1);
      var j := n - 1;
      StepAppends(w, file, st, j);
      StepTargets(w, file, st, j);
      assert SCENES[..n] == SCENES[..j] + [SCENES[j]];
      var added := StepEvents(w, file, st, j);
      if added != [] {
        assert OutputName(file, SCENES[j]) !in outputs0;
      }
    }
  }

  /** The last scene has been requested. */
  ghost predicate LastSceneCalled(events: seq<Event>)
  {
    exists e :: e in events && e.Call? && e.scene == SCENES[|SCENES| - 1]
  }

  /** The scene names are distinct, so the last one does not occur before it. */
  lemma LastSceneIsNew()
    ensures SCENES[|SCENES| - 1] !in SCENES[..|SCENES| - 1]
  {
  }

  /** A photo is framed once it has started, and never before. */
  lemma {:induction false} FrameCountHolds(w: World, file: string, outputs0: set<string>, n: nat)
    requires n <= |SCENES|
    ensures var st := ScenesUpTo(w, file, outputs0, n);
      && (st.framed.None? || !st.stopped)
      && Count(st.events, FrameKind) == (if st.framed.Some? || st.stopped then 1 else 0)
  {
    if n > 0 {
      FrameCountHolds(w, file, outputs0, n - 1);
      FrameStep(w, file, ScenesUpTo(w, file, outputs0, n - 1), n - 1);
    }
  }

  /** One iteration frames the photo exactly when it starts it. */
  lemma FrameStep(w: World, file: string, st: PhotoState, j: nat)
    requires j < |SCENES|
    requires st.framed.None? || !st.stopped
    requires Count(st.events, FrameKind) == (if st.framed.Some? || st.stopped then 1 else 0)
    ensures var st' := SceneStep(w, file, st, j);
      && (st'.framed.None? || !st'.stopped)
      && Count(st'.events, FrameKind) == (if st'.framed.Some? || st'.stopped then 1 else 0)
  {
    StepStarts(w, file, st, j);
    StepAppends(w, file, st, j);
    StepFrames(w, file, st, j);
    CountAppend(st.events, StepEvents(w, file, st, j), FrameKind);
  }

  /**
   * Every requested scene but the last is followed by a sleep, so after `n`
   * iterations the sleeps are the calls, less one if the last scene was called.
   */
  lemma {:induction false} SleepCountHolds(w: World, file: string, outputs0: set<string>, n: nat)
    requires n <= |SCENES|
    ensures var st := ScenesUpTo(w, file, outputs0, n);
      Count(st.events, SceneSleepKind) + (if n == |SCENES| && LastSceneCalled(st.events) then 1 else 0)
      == Count(st.events, CallKind)
  {
    if n > 0 {
      SleepCountHolds(w, file, outputs0, n - 1);
      EventsHold(w, file, outputs0, n - 1);
      var st := ScenesUpTo(w, file, outputs0, n - 1);
      StepAppends(w, file, st, n - 1);
      SleepStep(w, file, outputs0, st, n - 1);
    }
  }

  /** One iteration keeps the sleeps equal to the calls, except after a request of the last scene. */
  lemma SleepStep(w: World, file: string, outputs0: set<string>, st: PhotoState, j: nat)
    requires j < |SCENES|
    requires EventsInvariant(w, file, outputs0, j, st)
    requires Count(st.events, SceneSleepKind) == Count(st.events, CallKind)
    ensures var events' := st.events + StepEvents(w, file, st, j);
      Count(events', SceneSleepKind) + (if j == |SCENES| - 1 && LastSceneCalled(events') then 1 else 0)
      == Count(events', CallKind)
  {
    StepCalls(w, file, st, j);
    StepTargets(w, file, st, j);
    var added := StepEvents(w, file, st, j);
    CountAppend(st.events, added, SceneSleepKind);
    CountAppend(st.events, added, CallKind);
    if j == |SCENES| - 1 {
      LastSceneIsNew();
      assert !LastSceneCalled(st.events);
      var events' := st.events + added;
      assert LastSceneCalled(events') <==> exists e :: e in added && e.Call?;
    }
  }

  /** A scene whose output existed when its photo started is never requested and never saved. */
  lemma NoRequestForExisting(w: World, file: string, outputs0: set<string>)
    ensures var st := PhotoRun(w, file, outputs0);
      outputs0 <= st.outputs
      && forall e :: e in st.events && (e.Call? || e.Save?) ==> e.output !in outputs0
  {
    FramingHolds(w, file, outputs0, |SCENES|);
    EventsHold(w, file, outputs0, |SCENES|);
  }

  /** A photo is framed at most once, and framed exactly when one of its outputs is missing. */
  lemma FramedAtMostOnce(w: World, file: string, outputs0: set<string>)
    ensures Count(PhotoRun(w, file, outputs0).events, FrameKind) <= 1
    ensures Count(PhotoRun(w, file, outputs0).events, FrameKind) == 1 <==> SomeMissing(file, outputs0, |SCENES|)
  {
    FramingHolds(w, file, outputs0, |SCENES|);
    FrameCountHolds(w, file, outputs0, |SCENES|);
  }

  /** When framing fails nothing is requested: the photo's events are the one framing attempt, if any. */
  lemma FramingFailureStops(w: World, file: string, outputs0: set<string>)
    requires Framing.FrameAndMat(w.open(file)).None?
    ensures PhotoRun(w, file, outputs0).events == if SomeMissing(file, outputs0, |SCENES|) then [Frame(file)] else []
    ensures PhotoRun(w, file, outputs0).outputs == outputs0
  {
    FramingHolds(w, file, outputs0, |SCENES|);
  }

  /**
   * A scene sleep follows every requested scene except the last scene: the photo's
   * sleeps are its calls, less one when the last scene was requested.
   */
  lemma SceneSleeps(w: World, file: string, outputs0: set<string>)
    ensures var events := PhotoRun(w, file, outputs0).events;
      Count(events, SceneSleepKind) + (if LastSceneCalled(events) then 1 else 0) == Count(events, CallKind)
  {
    SleepCountHolds(w, file, outputs0, |SCENES|);
  }

  /** A photo whose outputs all exist: no framing, no request, no sleep. */
  lemma CompletePhotoIsQuiet(w: World, file: string, outputs0: set<string>)
    requires forall k :: 0 <= k < |SCENES| ==> OutputName(file, SCENES[k]) in outputs0
    ensures PhotoRun(w, file, outputs0) == PhotoState(None, false, outputs0, [])
  {
    FramingHolds(w, file, outputs0, |SCENES|);
  }

  /** `n` photo sleeps. */
  function Sleeps(n: nat): seq<Event>
  {
    seq(n, k => PhotoSleep(DELAY_BETWEEN_PHOTOS))
  }

  /**
   * Re-running after a complete run changes nothing and makes no request: the only
   * events are the photo sleeps between the photos.
   */
  lemma {:induction false} CompletedRunIsQuiet(w: World, files: seq<string>, existing: set<string>, i: nat)
    requires 0 < i <= |files|
    requires forall f, k :: f in files && 0 <= k < |SCENES| ==> OutputName(f, SCENES[k]) in existing
    ensures RunUpTo(w, files, existing, i).outputs == existing
    ensures RunUpTo(w, files, existing, i).events == Sleeps(if i < |files| then i else i - 1)
  {
    if i > 1 {
      CompletedRunIsQuiet(w, files, existing, i - 1);
    }
    assert files[i - 1] in files;
    CompletePhotoIsQuiet(w, files[i - 1], RunUpTo(w, files, existing, i - 1).outputs);
    assert RunUpTo(w, files, existing, i - 1).events == Sleeps(i - 1);
  }

  /**
   * Across the whole run, an output that existed before is never requested or
   * overwritten.
   */
  lemma {:induction false} RunNeverRedoes(w: World, files: seq<string>, existing: set<string>, i: nat)
    requires i <= |files|
    ensures existing <= RunUpTo(w, files, existing, i).outputs
    ensures forall e :: e in RunUpTo(w, files, existing, i).events && (e.Call? || e.Save?) ==> e.output !in existing
  {
    if i > 0 {
      RunNeverRedoes(w, files, existing, i - 1);
      NoRequestForExisting(w, files[i - 1], RunUpTo(w, files, existing, i - 1).outputs);
    }
  }

  /** Events of which none is of a kind count zero of it. */
  lemma {:induction false} CountNone(events: seq<Event>, kind: Kind)
    requires forall e :: e in events ==> !Is(e, kind)
    ensures Count(events, kind) == 0
  {
    if events != [] {
      var init := events[..|events| - 1];
      assert forall e :: e in init ==> e in events;
      assert events[|events| - 1] in events;
      CountNone(init, kind);
    }
  }

  /**
   * The photo sleeps fall between the photos: none inside a photo's scene loop,
   * one after each photo but the last, so `n - 1` in a run of `n` photos.
   */
  lemma {:induction false} PhotoSleeps(w: World, files: seq<string>, existing: set<string>, i: nat)
    requires i <= |files|
    ensures Count(RunUpTo(w, files, existing, i).events, PhotoSleepKind) == if 0 < i == |files| then i - 1 else i
  {
    if i > 0 {
      PhotoSleeps(w, files, existing, i - 1);
      var prev := RunUpTo(w, files, existing, i - 1);
      var photo := PhotoRun(w, files[i - 1], prev.outputs);
      NoPhotoSleepInPhoto(w, files[i - 1], prev.outputs);
      var gap := RunStepEvents(w, files, existing, i);
      PhotoSleepStep(prev.events, photo.events, gap);
    }
  }

  /** The events after photo `i` are those before it, its own, and the gap that follows it. */
  lemma RunStepEvents(w: World, files: seq<string>, existing: set<string>, i: nat) returns (gap: seq<Event>)
    requires 0 < i <= |files|
    ensures gap == [] || gap == [PhotoSleep(DELAY_BETWEEN_PHOTOS)]
    ensures gap == [] <==> i == |files|
    ensures var prev := RunUpTo(w, files, existing, i - 1);
      RunUpTo(w, files, existing, i).events
        == prev.events + PhotoRun(w, files[i - 1], prev.outputs).events + gap
  {
    gap := if i - 1 < |files| - 1 then [PhotoSleep(DELAY_BETWEEN_PHOTOS)] else [];
  }

  /** The scene loop of a photo never takes a photo sleep. */
  lemma NoPhotoSleepInPhoto(w: World, file: string, outputs0: set<string>)
    ensures forall e :: e in PhotoRun(w, file, outputs0).events ==> !e.PhotoSleep?
  {
    EventsHold(w, file, outputs0, |SCENES|);
  }

  /** A photo's events add no photo sleep; the gap after it adds its own. */
  lemma PhotoSleepStep(before: seq<Event>, photo: seq<Event>, gap: seq<Event>)
    requires forall e :: e in photo ==> !e.PhotoSleep?
    requires gap == [] || gap == [PhotoSleep(DELAY_BETWEEN_PHOTOS)]
    ensures Count(before + photo + gap, PhotoSleepKind) == Count(before, PhotoSleepKind) + |gap|
  {
    CountNone(photo, PhotoSleepKind);
    CountAppend(before, photo, PhotoSleepKind);
    CountAppend(before + photo, gap, PhotoSleepKind);
    CountSingle(PhotoSleep(DELAY_BETWEEN_PHOTOS), PhotoSleepKind);
  }

  /** Two scenes give a photo different output names: the scene names differ in length. */
  lemma OutputNamesDistinct(file: string, j: nat, k: nat)
    requires j < |SCENES| && k < |SCENES| && j != k
    ensures OutputName(file, SCENES[j]) != OutputName(file, SCENES[k])
  {
    assert |OutputName(file, SCENES[j])| == |Stem(file)| + |SCENES[j]| + 12;
    assert |OutputName(file, SCENES[k])| == |Stem(file)| + |SCENES[k]| + 12;
  }

  /** The outputs the first `n` scenes save: those missing at the start whose reply carries an image. */
  function SavedUpTo(w: World, file: string, outputs0: set<string>, n: nat): (saved: set<string>)
    requires n <= |SCENES|
    ensures forall o :: o in saved <==>
      exists j :: 0 <= j < n && o == OutputName(file, SCENES[j]) && o !in outputs0 && ReplyFor(w, file, j).image.Some?
  {
    if n == 0 then {}
    else
      var o := OutputName(file, SCENES[n - 1]);
      SavedUpTo(w, file, outputs0, n - 1)
      + (if o !in outputs0 && ReplyFor(w, file, n - 1).image.Some? then {o} else {})
  }

  /** The scene loop has called the API for `scene`. */
  ghost predicate Called(events: seq<Event>, scene: string)
  {
    exists e :: e in events && e.Call? && e.scene == scene
  }

  /** What the scene loop of a photo that can be framed has done after `n` iterations. */
  ghost predicate OutputsInvariant(w: World, file: string, outputs0: set<string>, n: nat, st: PhotoState)
    requires n <= |SCENES|
  {
    && st.outputs == outputs0 + SavedUpTo(w, file, outputs0, n)
    && forall j :: 0 <= j < n && OutputName(file, SCENES[j]) !in outputs0 ==> Called(st.events, SCENES[j])
  }

  lemma {:induction false} OutputsHold(w: World, file: string, outputs0: set<string>, n: nat)
    requires n <= |SCENES| && Framing.FrameAndMat(w.open(file)).Some?
    ensures OutputsInvariant(w, file, outputs0, n, ScenesUpTo(w, file, outputs0, n))
  {
    if n > 0 {
      OutputsHold(w, file, outputs0, n - 1);
      FramingHolds(w, file, outputs0, n - 1);
      OutputStep(w, file, outputs0, ScenesUpTo(w, file, outputs0, n - 1), n - 1);
    }
  }

  /** One iteration: a missing scene is requested, and its output added exactly when the reply carries an image. */
  lemma OutputStep(w: World, file: string, outputs0: set<string>, st: PhotoState, j: nat)
    requires j < |SCENES| && Framing.FrameAndMat(w.open(file)).Some? && !st.stopped
    requires OutputsInvariant(w, file, outputs0, j, st)
    ensures OutputsInvariant(w, file, outputs0, j + 1, SceneStep(w, file, st, j))
  {
    var o := OutputName(file, SCENES[j]);
    assert o !in SavedUpTo(w, file, outputs0, j) by {
      forall k | 0 <= k < j ensures OutputName(file, SCENES[k]) != o {
        OutputNamesDistinct(file, k, j);
      }
    }
    StepOutputs(w, file, st, j);
    StepKeepsCalls(w, file, st, j);
    if o !in outputs0 {
      StepRequests(w, file, st, j);
    }
  }

  /** The outputs after an iteration: its own output is added exactly when it is requested and the reply has an image. */
  lemma StepOutputs(w: World, file: string, st: PhotoState, j: nat)
    requires j < |SCENES|
    ensures var o := OutputName(file, SCENES[j]);
      SceneStep(w, file, st, j).outputs ==
        if !st.stopped && o !in st.outputs && (st.framed.Some? || Framing.FrameAndMat(w.open(file)).Some?)
           && ReplyFor(w, file, j).image.Some?
        then st.outputs + {o} else st.outputs
  {
  }

  /** An iteration keeps the scenes already called. */
  lemma StepKeepsCalls(w: World, file: string, st: PhotoState, j: nat)
    requires j < |SCENES|
    ensures forall scene :: Called(st.events, scene) ==> Called(SceneStep(w, file, st, j).events, scene)
  {
    StepAppends(w, file, st, j);
    assert forall e :: e in st.events ==> e in SceneStep(w, file, st, j).events;
  }

  /** An iteration over a missing scene of a photo that can be framed calls for that scene. */
  lemma StepRequests(w: World, file: string, st: PhotoState, j: nat)
    requires j < |SCENES| && Framing.FrameAndMat(w.open(file)).Some? && !st.stopped
    requires OutputName(file, SCENES[j]) !in st.outputs
    ensures Called(SceneStep(w, file, st, j).events, SCENES[j])
  {
    var added := StepEvents(w, file, st, j);
    StepAppends(w, file, st, j);
    StepCalls(w, file, st, j);
    StepTargets(w, file, st, j);
    var e :| e in added && e.Call?;
    assert e in SceneStep(w, file, st, j).events;
  }

  /** A scene missing at the start, of a photo that can be framed, is requested. */
  lemma MissingSceneRequested(w: World, file: string, outputs0: set<string>, j: nat)
    requires j < |SCENES| && Framing.FrameAndMat(w.open(file)).Some? && OutputName(file, SCENES[j]) !in outputs0
    ensures Called(PhotoRun(w, file, outputs0).events, SCENES[j])
  {
    OutputsHold(w, file, outputs0, |SCENES|);
  }

  /**
   * A photo's loop adds exactly the outputs of its missing scenes whose reply
   * carries an image, and nothing when the photo cannot be framed.
   */
  lemma PhotoOutputs(w: World, file: string, outputs0: set<string>)
    ensures PhotoRun(w, file, outputs0).outputs ==
      if Framing.FrameAndMat(w.open(file)).Some? then outputs0 + SavedUpTo(w, file, outputs0, |SCENES|) else outputs0
  {
    if Framing.FrameAndMat(w.open(file)).Some? {
      OutputsHold(w, file, outputs0, |SCENES|);
    } else {
      FramingHolds(w, file, outputs0, |SCENES|);
    }
  }
}
