/** The module-level state of the VP9 player (vp9/playback.js) and the code
    that updates it: `loadAndPlayVideo` and `initializeDecoder` (parse, then
    feed the decoder), the decoder's output and error callbacks, and one
    step of `renderLoop`. The platform decoder is an abstract sink: the
    chunks handed to it are recorded in `submitted`, and the frames it gives
    back arrive through `OnDecoderOutput`. */
module Vp9Player {
  import opened Bytes
  import opened JsNumber
  import opened Vp9Ivf

  /** A decoded picture as the decoder's output callback hands it over. */
  datatype VideoFrame = VideoFrame(codedWidth: nat, codedHeight: nat, timestamp: int)

  class Player {
    /** `currentFrameQueue`: decoded frames waiting to be drawn, oldest first. */
    var queue: seq<VideoFrame>
    var framesDecoded: nat
    var framesRendered: nat
    var frameRate: Num
    var videoWidth: nat
    var videoHeight: nat
    var canvasWidth: nat
    var canvasHeight: nat
    var lastRenderTime: real
    var isPlaying: bool
    /** The chunks passed to `videoDecoder.decode`, in call order. */
    var submitted: seq<Chunk>

    /** Every frame the decoder has delivered, and every frame drawn, in order. */
    ghost var decoded: seq<VideoFrame>
    ghost var rendered: seq<VideoFrame>

    /** The counters count deliveries and draws, and the queue holds exactly
        the delivered frames not yet drawn: frames are drawn in the order
        they were decoded, and `framesDecoded == framesRendered + |queue|`. */
    ghost predicate Valid()
      reads this
    {
      && framesDecoded == |decoded|
      && framesRendered == |rendered|
      && decoded == rendered + queue
      && NonNeg(frameRate)
    }

    /** The script's initial state; the canvas has whatever size the page gave it. */
    constructor (initialCanvasWidth: nat, initialCanvasHeight: nat)
      ensures Valid()
      ensures queue == [] && framesDecoded == 0 && framesRendered == 0
      ensures frameRate == Finite(30.0) && videoWidth == 0 && videoHeight == 0
      ensures canvasWidth == initialCanvasWidth && canvasHeight == initialCanvasHeight
      ensures lastRenderTime == 0.0 && !isPlaying && submitted == []
    {
      queue := [];
      framesDecoded, framesRendered := 0, 0;
      frameRate := Finite(30.0);
      videoWidth, videoHeight := 0, 0;
      canvasWidth, canvasHeight := initialCanvasWidth, initialCanvasHeight;
      lastRenderTime := 0.0;
      isPlaying := false;
      submitted := [];
      decoded, rendered := [], [];
    }

    /** `loadAndPlayVideo` once the file's bytes are in hand: a header that
        does not parse stops everything; otherwise the dimensions and frame
        rate are taken from it, the canvas is sized, the frames are parsed
        from the DECLARED header length on, and the decoder is fed. A chunk
        timestamp the platform rejects ends the feed there, and playback
        does not start. */
    method LoadAndPlay(buf: seq<Byte>, decoderAvailable: bool, configSupported: bool)
      returns (header: Option<Vp9Header>)
      requires Valid()
      modifies this
      ensures Valid()
      ensures header == ParseIvfHeader(buf)
      ensures header.None? ==> unchanged(this)
      ensures header.Some? ==>
                && videoWidth == header.value.width && videoHeight == header.value.height
                && canvasWidth == header.value.width && canvasHeight == header.value.height
                && frameRate == header.value.frameRate
                && var frames := Vp9Frames(buf, header.value.headerSize);
                   && |old(submitted)| <= |submitted| && submitted[..|old(submitted)|] == old(submitted)
                   && var fed := submitted[|old(submitted)|..];
                      if decoderAvailable && configSupported
                      then FedPrefix(fed, Chunks(frames, FrameDurationMs(frameRate)))
                           && isPlaying == (old(isPlaying) || |fed| == |frames|)
                      else fed == [] && isPlaying == old(isPlaying)
      ensures queue == old(queue) && decoded == old(decoded) && rendered == old(rendered)
      ensures lastRenderTime == old(lastRenderTime)
    {
      header := ParseIvfHeader(buf);
      if header.None? {
        return;
      }
      videoWidth := header.value.width;
      videoHeight := header.value.height;
      frameRate := header.value.frameRate;
      canvasWidth := videoWidth;
      canvasHeight := videoHeight;
      var ivfFrames := ParseIvfFrames(buf, header.value.headerSize);
      InitializeDecoder(ivfFrames, decoderAvailable, configSupported);
    }

    /** `initializeDecoder`: without WebCodecs, or with a configuration the
        platform rejects, nothing is fed and playback does not start;
        otherwise the frames are submitted in order until one is stamped
        with a timestamp the chunk constructor rejects, and playback starts
        only if none was. */
    method InitializeDecoder(ivfFrames: seq<Vp9Frame>, decoderAvailable: bool, configSupported: bool)
      requires Valid()
      modifies this`submitted, this`isPlaying
      ensures Valid()
      ensures |old(submitted)| <= |submitted| && submitted[..|old(submitted)|] == old(submitted)
      ensures var fed := submitted[|old(submitted)|..];
              if decoderAvailable && configSupported
              then FedPrefix(fed, Chunks(ivfFrames, FrameDurationMs(frameRate)))
                   && isPlaying == (old(isPlaying) || |fed| == |ivfFrames|)
              else fed == [] && isPlaying == old(isPlaying)
    {
      if decoderAvailable && configSupported {
        var frameDurationMs := FrameDurationMs(frameRate);
        var chunks, completed := FeedDecoder(ivfFrames, frameDurationMs);
        submitted := submitted + chunks;
        assert submitted[|old(submitted)|..] == chunks;
        if completed {
          isPlaying := true;
        }
      }
    }

    /** The decoder's output callback: the frame joins the back of the queue
        and is counted as decoded. */
    method OnDecoderOutput(frame: VideoFrame)
      requires Valid()
      modifies this`queue, this`framesDecoded, this`decoded
      ensures Valid()
      ensures queue == old(queue) + [frame] && framesDecoded == old(framesDecoded) + 1
      ensures decoded == old(decoded) + [frame]
    {
      queue := queue + [frame];
      framesDecoded := framesDecoded + 1;
      decoded := decoded + [frame];
    }

    /** The decoder's error callback: playback stops. */
    method OnDecoderError()
      requires Valid()
      modifies this`isPlaying
      ensures Valid() && !isPlaying
    {
      isPlaying := false;
    }

    /** One call of `renderLoop(now)`. While playing, it draws at most one
        frame, the oldest in the queue, and only when at least
        `1000 / frameRate` ms have passed since the last draw (the first call
        starts that clock). It asks to be called again exactly while frames
        remain queued, and otherwise ends playback if the decoder reports
        itself configured. Returns the frame drawn, if any, and whether
        `requestAnimationFrame` was called again. */
    method RenderLoop(now: real, decoderConfigured: bool) returns (drawn: Option<VideoFrame>, again: bool)
      requires Valid()
      modifies this`queue, this`framesRendered, this`rendered, this`lastRenderTime,
               this`isPlaying, this`canvasWidth, this`canvasHeight, this`videoWidth, this`videoHeight
      ensures Valid()
      ensures !old(isPlaying) ==> unchanged(this) && drawn.None? && !again
      ensures old(isPlaying) ==>
                var last := ClockStart(old(lastRenderTime), now);
                var due := FrameDue(now, last, frameRate, old(queue));
                var resize := due && Resizes(old(canvasWidth), old(canvasHeight), old(queue)[0]);
                && drawn == (if due then Some(old(queue)[0]) else None)
                && queue == (if due then old(queue)[1..] else old(queue))
                && rendered == old(rendered) + (if due then [old(queue)[0]] else [])
                && lastRenderTime == (if due then now else last)
                && (due ==> canvasWidth == old(queue)[0].codedWidth && canvasHeight == old(queue)[0].codedHeight)
                && (!due ==> canvasWidth == old(canvasWidth) && canvasHeight == old(canvasHeight))
                && videoWidth == (if resize then old(queue)[0].codedWidth else old(videoWidth))
                && videoHeight == (if resize then old(queue)[0].codedHeight else old(videoHeight))
                && (again <==> queue != [])
                && (isPlaying <==> again || !decoderConfigured)
      ensures decoded == old(decoded) && framesDecoded == old(framesDecoded)
    {
      drawn, again := None, false;
      if !isPlaying {
        return;
      }
      if lastRenderTime == 0.0 {
        lastRenderTime := now;
      }
      drawn := DrawIfDue(now);
      if framesRendered < framesDecoded || |queue| > 0 {
        again := true;
      } else if decoderConfigured && framesRendered >= framesDecoded && |queue| == 0 {
        isPlaying := false;
      }
    }

    /** The drawing half of `renderLoop`: when a frame is due, take the
        oldest queued frame, resize the canvas to it if needed, count it and
        restart the clock. */
    method DrawIfDue(now: real) returns (drawn: Option<VideoFrame>)
      requires Valid()
      modifies this`queue, this`framesRendered, this`rendered, this`lastRenderTime,
               this`canvasWidth, this`canvasHeight, this`videoWidth, this`videoHeight
      ensures Valid()
      ensures var due := FrameDue(now, old(lastRenderTime), frameRate, old(queue));
              var resize := due && Resizes(old(canvasWidth), old(canvasHeight), old(queue)[0]);
              && drawn == (if due then Some(old(queue)[0]) else None)
              && queue == (if due then old(queue)[1..] else old(queue))
              && rendered == old(rendered) + (if due then [old(queue)[0]] else [])
              && lastRenderTime == (if due then now else old(lastRenderTime))
              && (due ==> canvasWidth == old(queue)[0].codedWidth && canvasHeight == old(queue)[0].codedHeight)
              && (!due ==> canvasWidth == old(canvasWidth) && canvasHeight == old(canvasHeight))
              && videoWidth == (if resize then old(queue)[0].codedWidth else old(videoWidth))
              && videoHeight == (if resize then old(queue)[0].codedHeight else old(videoHeight))
      ensures decoded == old(decoded) && framesDecoded == old(framesDecoded)
    {
      drawn := None;
      var timeSinceLastFrame := now - lastRenderTime;
      var targetFrameTime := Div(Nat(1000), frameRate);
      if AtLeast(timeSinceLastFrame, targetFrameTime) && |queue| > 0 {
        var frame := queue[0];
        queue := queue[1..];
        if Resizes(canvasWidth, canvasHeight, frame) {
          canvasWidth, canvasHeight := frame.codedWidth, frame.codedHeight;
          videoWidth, videoHeight := frame.codedWidth, frame.codedHeight;
        }
        framesRendered := framesRendered + 1;
        rendered := rendered + [frame];
        lastRenderTime := now;
        drawn := Some(frame);
      }
    }
  }

  /** `renderLoop` starts its clock on the first call: a last-render time of
      0 is replaced by `now`. */
  function ClockStart(lastRenderTime: real, now: real): real
  {
    if lastRenderTime == 0.0 then now else lastRenderTime
  }

  /** Drawing `frame` resizes the canvas, and records the new video size,
      when the canvas does not already have the frame's size. */
  predicate Resizes(canvasWidth: nat, canvasHeight: nat, frame: VideoFrame)
  {
    canvasWidth != frame.codedWidth || canvasHeight != frame.codedHeight
  }

  /** A frame is due when one is queued and `now - lastRenderTime` is at
      least `1000 / frameRate` (never, when that is NaN or Infinity). */
  predicate FrameDue(now: real, lastRenderTime: real, frameRate: Num, queue: seq<VideoFrame>)
    requires NonNeg(frameRate)
  {
    AtLeast(now - lastRenderTime, Div(Nat(1000), frameRate)) && queue != []
  }
}
