/**
  The decisions `main` makes: validating what the device reported before
  rendering starts, and one iteration of the render loop, which redraws only
  when the formatted time changed and announces readiness after the first
  frame. The system calls themselves are inputs: their outcomes arrive as
  fields of `Probe` and `Reading`.
 */
module Lifecycle {
  import opened Color
  import opened Surface

  /** Why setup gave up; every one of them ends the process with status 1. */
  datatype SetupError =
    | FramebufferMissing
    | OpenFailed
    | ScreenInfoFailed
    | UnsupportedBpp(bpp: int)
    | MapFailed

  /**
    What setup observes: whether the device node appeared in time, whether it
    opened, whether both screen-info ioctls succeeded, the fixed and variable
    screen info fields used, and whether the mapping succeeded.
   */
  datatype Probe = Probe(
    appeared: bool,
    openOk: bool,
    infoOk: bool,
    bitsPerPixel: nat,
    smemLen: nat,
    lineLength: nat,
    xres: nat,
    yres: nat,
    mapOk: bool)

  datatype Config = Config(geo: Geometry, mapSize: nat, fg: uint32, bg: uint32)

  datatype SetupResult = Ready(config: Config) | Failed(error: SetupError)

  predicate SupportedDepth(bpp: int)
  {
    bpp == 16 || bpp == 32
  }

  /** The setup sequence of `main`, checked in the order the code checks it. */
  function Setup(p: Probe): (r: SetupResult)
    ensures r.Ready? <==> p.appeared && p.openOk && p.infoOk && SupportedDepth(p.bitsPerPixel) && p.mapOk
    ensures r.Failed? && r.error.UnsupportedBpp? ==>
              p.appeared && p.openOk && p.infoOk && r.error.bpp == p.bitsPerPixel && !SupportedDepth(p.bitsPerPixel)
    ensures !p.appeared ==> r == Failed(FramebufferMissing)
    ensures p.appeared && !p.openOk ==> r == Failed(OpenFailed)
    ensures p.appeared && p.openOk && !p.infoOk ==> r == Failed(ScreenInfoFailed)
    ensures p.appeared && p.openOk && p.infoOk && !SupportedDepth(p.bitsPerPixel) ==>
              r == Failed(UnsupportedBpp(p.bitsPerPixel))
    ensures p.appeared && p.openOk && p.infoOk && SupportedDepth(p.bitsPerPixel) && !p.mapOk ==>
              r == Failed(MapFailed)
    ensures r.Ready? ==> SupportedDepth(r.config.geo.bpp)
    ensures r.Ready? ==> r.config.mapSize == (if p.smemLen == 0 then p.lineLength * p.yres else p.smemLen)
    ensures r.Ready? ==> r.config.geo == Geometry(p.xres, p.yres, p.lineLength, p.bitsPerPixel)
    ensures r.Ready? ==> r.config.fg == PackColor(p.bitsPerPixel, 38, 194, 129)
    ensures r.Ready? ==> r.config.bg == PackColor(p.bitsPerPixel, 32, 32, 32)
  {
    if !p.appeared then Failed(FramebufferMissing)
    else if !p.openOk then Failed(OpenFailed)
    else if !p.infoOk then Failed(ScreenInfoFailed)
    else if p.bitsPerPixel != 16 && p.bitsPerPixel != 32 then Failed(UnsupportedBpp(p.bitsPerPixel))
    else
      var mapSize := if p.smemLen != 0 then p.smemLen else p.lineLength * p.yres;
      if !p.mapOk then Failed(MapFailed)
      else
        var bpp := p.bitsPerPixel;
        Ready(Config(Geometry(p.xres, p.yres, p.lineLength, bpp), mapSize,
                     PackColor(bpp, 38, 194, 129), PackColor(bpp, 32, 32, 32)))
  }

  /**
    Setup does not compare the line length with the width; when the device
    reports rows at least `xres` pixels long, the surface is one the writer
    can address.
   */
  lemma SetupGivesWritableSurface(p: Probe)
    requires p.appeared && p.openOk && p.infoOk && p.mapOk && SupportedDepth(p.bitsPerPixel)
    requires p.lineLength >= p.xres * (p.bitsPerPixel / 8)
    ensures Setup(p).Ready? && ValidGeometry(Setup(p).config.geo)
  {
  }

  /** The size of the `last_render` buffer, terminating zero included. */
  const LastRenderSize: nat := 16

  /** The loop's own state: the text drawn last and whether readiness was announced. */
  datatype LoopState = LoopState(lastRender: string, readyAnnounced: bool)

  const Start := LoopState("", false)

  /**
    One clock reading of the loop: `localtime_r` failed, or `strftime` of
    `%H:%M:%S` produced `text` (before the 16-byte limit is applied).
   */
  datatype Reading = NoLocalTime | Formatted(text: string)

  /**
    `strftime` into a 16-byte buffer returns 0, and the loop skips the tick,
    when the text with its terminating zero does not fit or is empty.
   */
  predicate Usable(rd: Reading)
  {
    rd.Formatted? && 0 < |rd.text| < LastRenderSize
  }

  /** `strncpy` into `last_render` followed by forcing its last byte to zero. */
  function CopyBounded(text: string): (c: string)
    ensures |c| < LastRenderSize
    ensures |text| < LastRenderSize ==> c == text
    ensures c <= text
    ensures |c| == if |text| < LastRenderSize then |text| else LastRenderSize - 1
  {
    if |text| < LastRenderSize then text else text[..LastRenderSize - 1]
  }

  /** What one loop iteration did: the state after it, the text it drew, whether it announced. */
  datatype StepOutcome = StepOutcome(state: LoopState, rendered: bool, text: string, announced: bool)

  /** One iteration of the render loop of `main`. */
  function Step(s: LoopState, rd: Reading): (o: StepOutcome)
    ensures o.rendered <==> Usable(rd) && rd.text != s.lastRender
    ensures o.rendered ==> o.text == rd.text && o.state == LoopState(rd.text, true)
    ensures !o.rendered ==> o.state == s
    ensures o.announced <==> o.rendered && !s.readyAnnounced
  {
    if rd.NoLocalTime? then StepOutcome(s, false, "", false)
    else if !Usable(rd) then StepOutcome(s, false, "", false)
    else if rd.text != s.lastRender then
      StepOutcome(LoopState(CopyBounded(rd.text), true), true, rd.text, !s.readyAnnounced)
    else StepOutcome(s, false, "", false)
  }

  /** The same reading twice in a row is drawn at most once. */
  lemma RepeatedReadingDrawsOnce(s: LoopState, rd: Reading)
    ensures !Step(Step(s, rd).state, rd).rendered
  {
  }

  /** The first usable reading after start is always drawn and announced. */
  lemma FirstUsableReadingRenders(rd: Reading)
    requires Usable(rd)
    ensures Step(Start, rd).rendered && Step(Start, rd).announced
  {
  }

  /** Totals over a run of iterations. */
  datatype Run = Run(state: LoopState, renders: nat, announcements: nat)

  function RunLoop(s: LoopState, readings: seq<Reading>): Run
    decreases |readings|
  {
    if |readings| == 0 then Run(s, 0, 0)
    else
      var o := Step(s, readings[0]);
      var rest := RunLoop(o.state, readings[1..]);
      Run(rest.state, rest.renders + (if o.rendered then 1 else 0),
          rest.announcements + (if o.announced then 1 else 0))
  }

  /**
    Over any run, readiness is announced once if the run starts unannounced
    and draws at least one frame, and never otherwise; the flag ends set
    exactly when it started set or a frame was drawn.
   */
  lemma {:induction false} AnnouncedAtMostOnce(s: LoopState, readings: seq<Reading>)
    ensures RunLoop(s, readings).announcements == (if !s.readyAnnounced && RunLoop(s, readings).renders > 0 then 1 else 0)
    ensures RunLoop(s, readings).state.readyAnnounced <==> s.readyAnnounced || RunLoop(s, readings).renders > 0
    decreases |readings|
  {
    if |readings| > 0 {
      var o := Step(s, readings[0]);
      AnnouncedAtMostOnce(o.state, readings[1..]);
    }
  }

  /** Running a prefix of `j > 0` readings is one step followed by the rest of the prefix. */
  lemma RunPrefixUnfolds(s: LoopState, readings: seq<Reading>, j: nat)
    requires 0 < j <= |readings|
    ensures RunLoop(s, readings[..j]).state == RunLoop(Step(s, readings[0]).state, readings[1..][..j - 1]).state
  {
    assert readings[..j][0] == readings[0];
    assert readings[..j][1..] == readings[1..][..j - 1];
  }

  /**
    After a run, `last_render` holds the text of the last frame drawn: once
    reading k is drawn, later iterations that draw nothing (failed readings,
    or the same second read again) leave it in place.
   */
  lemma {:induction false} LastRenderIsLastDrawn(s: LoopState, readings: seq<Reading>, k: nat)
    requires k < |readings| && Step(RunLoop(s, readings[..k]).state, readings[k]).rendered
    requires forall j | k < j < |readings| :: !Step(RunLoop(s, readings[..j]).state, readings[j]).rendered
    ensures RunLoop(s, readings).state.lastRender == readings[k].text
    decreases |readings|
  {
    var o := Step(s, readings[0]);
    var rest := readings[1..];
    if k > 0 {
      RunPrefixUnfolds(s, readings, k);
      forall j | k - 1 < j < |rest|
        ensures !Step(RunLoop(o.state, rest[..j]).state, rest[j]).rendered
      {
        RunPrefixUnfolds(s, readings, j + 1);
      }
      LastRenderIsLastDrawn(o.state, rest, k - 1);
    } else {
      forall j | 0 <= j < |rest|
        ensures !Step(RunLoop(o.state, rest[..j]).state, rest[j]).rendered
      {
        RunPrefixUnfolds(s, readings, j + 1);
      }
      QuietRunKeepsState(o.state, rest);
    }
  }

  /** A run in which no iteration draws leaves the state unchanged and announces nothing. */
  lemma {:induction false} QuietRunKeepsState(s: LoopState, readings: seq<Reading>)
    requires forall j | 0 <= j < |readings| :: !Step(RunLoop(s, readings[..j]).state, readings[j]).rendered
    ensures RunLoop(s, readings) == Run(s, 0, 0)
    decreases |readings|
  {
    if |readings| > 0 {
      assert readings[..0] == [];
      var rest := readings[1..];
      forall j | 0 <= j < |rest|
        ensures !Step(RunLoop(s, rest[..j]).state, rest[j]).rendered
      {
        RunPrefixUnfolds(s, readings, j + 1);
      }
      QuietRunKeepsState(s, rest);
    }
  }

  /** A run of unusable readings changes nothing. */
  lemma {:induction false} NothingDrawnKeepsState(s: LoopState, readings: seq<Reading>)
    requires forall j | 0 <= j < |readings| :: !Usable(readings[j])
    ensures RunLoop(s, readings) == Run(s, 0, 0)
    decreases |readings|
  {
    if |readings| > 0 {
      NothingDrawnKeepsState(s, readings[1..]);
    }
  }
}
