/**
 * The text-scramble animator (the `useTextScramble` hook): once triggered, it
 * publishes one frame per executed animation tick, revealing the target text
 * left to right while every other non-space position shows a random glyph.
 *
 * The reveal counter `iter` grows by 0.5 per executed tick; it is kept here as
 * a natural number of half-steps `half`, so that `iter == half / 2` and the
 * test `i < iter` reads `2 * i < half`.
 */
module TextScramble {
  import opened Wrappers
  import opened AnimationFrames
  import opened Sequences

  /** The hook's default minimum delay between executed ticks, in ms. */
  const DefaultSpeed: nat := 30

  /** The glyph alphabet that scrambled positions are drawn from. */
  const CHARS: string := Span('A', 26) + Span('a', 26) + Span('0', 10) + "!@#$%&*"

  /** The `count` consecutive characters from `first` on. */
  function Span(first: char, count: nat): (s: string)
    requires first as int + count <= 0xD800
    ensures |s| == count
  {
    seq(count, i requires 0 <= i < count => (first as int + i) as char)
  }

  /** Written out, the alphabet is the hook's 69-character string. */
  lemma AlphabetSpelledOut()
    ensures CHARS == "ABCDEFGHIJKLMNOPQRSTUVWXYZ" + "abcdefghijklmnopqrstuvwxyz" + "0123456789" + "!@#$%&*"
  {
    assert Span('A', 26) == "ABCDEFGHIJKLMNOPQRSTUVWXYZ";
    assert Span('a', 26) == "abcdefghijklmnopqrstuvwxyz";
    assert Span('0', 10) == "0123456789";
  }

  /** What `Math.floor(Math.random() * CHARS.length)` can return. */
  type GlyphIndex = i: nat | i < 69

  /** The alphabet has 69 glyphs, so every GlyphIndex picks one of them. */
  lemma AlphabetSize()
    ensures |CHARS| == 69
  {
  }

  /**
   * The frame an executed tick builds at half-step `half`: a per-index map over
   * the characters of `text`. `draws[i]` is the random index the tick would use
   * at position `i`.
   */
  function Frame(text: string, half: nat, draws: seq<GlyphIndex>): (r: string)
    requires |draws| == |text|
    ensures |r| == |text|
    ensures forall i :: 0 <= i < |text| && text[i] == ' ' ==> r[i] == ' '
    ensures forall i :: 0 <= i < |text| && text[i] != ' ' && 2 * i < half ==> r[i] == text[i]
    ensures forall i :: 0 <= i < |text| && text[i] != ' ' && half <= 2 * i ==> r[i] == CHARS[draws[i]]
    decreases |text|
  {
    if text == [] then []
    else
      var n := |text| - 1;
      var c := if text[n] == ' ' then ' ' else if 2 * n < half then text[n] else CHARS[draws[n]];
      Frame(text[..n], half, draws[..n]) + [c]
  }

  /** The frame built at half-step 2 * |text| (iter == text.length) is the text itself. */
  lemma FinalFrame(text: string, draws: seq<GlyphIndex>)
    requires |draws| == |text|
    ensures Frame(text, 2 * |text|, draws) == text
  {
    var r := Frame(text, 2 * |text|, draws);
    forall i | 0 <= i < |text|
      ensures r[i] == text[i]
    {
      if text[i] != ' ' {
        assert 2 * i < 2 * |text|;
      }
    }
    assert |r| == |text|;
  }

  /**
   * At half-step `half` the first ceil(half / 2) characters (at most the whole
   * text) are settled to their true values.
   */
  lemma SettledPrefix(text: string, half: nat, draws: seq<GlyphIndex>)
    requires |draws| == |text|
    ensures var k := if (half + 1) / 2 < |text| then (half + 1) / 2 else |text|;
            Frame(text, half, draws)[..k] == text[..k]
  {
    var k := if (half + 1) / 2 < |text| then (half + 1) / 2 else |text|;
    var r := Frame(text, half, draws);
    forall i | 0 <= i < k
      ensures r[i] == text[i]
    {
      assert 2 * i < half;
    }
  }

  /** A position settled at one half-step stays settled at every later one. */
  lemma SettledStaysSettled(text: string, half: nat, later: nat, draws: seq<GlyphIndex>, draws': seq<GlyphIndex>, i: nat)
    requires |draws| == |text| && |draws'| == |text|
    requires half <= later && i < |text| && 2 * i < half
    ensures Frame(text, later, draws')[i] == Frame(text, half, draws)[i] == text[i]
  {
  }

  /**
   * The frames a run publishes from half-step `half` on, one per executed tick,
   * `ticks[k]` holding the draws of the k-th of them. After the tick at `half`
   * the counter is `half + 1`, and the next tick is scheduled iff
   * `half + 1 <= 2 * |text|`, that is iff `iter <= text.length`.
   */
  function RunFrames(text: string, half: nat, ticks: seq<seq<GlyphIndex>>): (r: seq<string>)
    requires half <= 2 * |text|
    requires |ticks| == 2 * |text| + 1 - half
    requires forall k :: 0 <= k < |ticks| ==> |ticks[k]| == |text|
    ensures |r| == |ticks|
    decreases 2 * |text| - half
  {
    [Frame(text, half, ticks[0])] + if half + 1 <= 2 * |text| then RunFrames(text, half + 1, ticks[1..]) else []
  }

  /** A run from `half` publishes 2 * |text| + 1 - half frames, the k-th built at half + k. */
  lemma {:induction false} RunFramesAt(text: string, half: nat, ticks: seq<seq<GlyphIndex>>)
    requires half <= 2 * |text|
    requires |ticks| == 2 * |text| + 1 - half
    requires forall k :: 0 <= k < |ticks| ==> |ticks[k]| == |text|
    ensures |RunFrames(text, half, ticks)| == 2 * |text| + 1 - half
    ensures forall k :: 0 <= k < |ticks| ==> RunFrames(text, half, ticks)[k] == Frame(text, half + k, ticks[k])
    decreases 2 * |text| - half
  {
    if half + 1 <= 2 * |text| {
      RunFramesAt(text, half + 1, ticks[1..]);
      var rest := RunFrames(text, half + 1, ticks[1..]);
      forall k | 1 <= k < |ticks|
        ensures RunFrames(text, half, ticks)[k] == Frame(text, half + k, ticks[k])
      {
        assert RunFrames(text, half, ticks)[k] == rest[k - 1];
        assert ticks[1..][k - 1] == ticks[k];
      }
    }
  }

  /**
   * A whole run, started at half-step 0, executes exactly 2 * |text| + 1 ticks
   * and its last published frame is the text.
   */
  lemma RunEndsWithText(text: string, ticks: seq<seq<GlyphIndex>>)
    requires |ticks| == 2 * |text| + 1
    requires forall k :: 0 <= k < |ticks| ==> |ticks[k]| == |text|
    ensures |RunFrames(text, 0, ticks)| == 2 * |text| + 1
    ensures RunFrames(text, 0, ticks)[2 * |text|] == text
  {
    RunFramesAt(text, 0, ticks);
    FinalFrame(text, ticks[2 * |text|]);
  }

  /**
   * One mounted instance of the hook. `rafRef`, `last` and `half` are the refs
   * `rafRef`, `lastRef` and `iterRef` (the last in half-steps), `displayed` the
   * state published with `setDisplayed`, and `frames` the animation-frame
   * queue this instance schedules on. `published` records every frame passed
   * to `setDisplayed`, in order, and `effectActive` whether the effect has
   * run without its cleanup yet: React runs the two strictly in turn.
   */
  class Scrambler {
    const text: string
    const speed: nat
    var displayed: string
    var rafRef: Option<FrameHandle>
    var last: int
    var half: nat
    var frames: FrameQueue
    ghost var published: seq<string>
    ghost var effectActive: bool

    /** The displayed string always has the text's length and its spaces. */
    ghost predicate Valid()
      reads this
    {
      && frames.Valid()
      && |displayed| == |text|
      && (forall i :: 0 <= i < |text| && text[i] == ' ' ==> displayed[i] == ' ')
    }

    /**
     * The pending frames of this instance form a single chain: at most one is
     * pending, it is the one `rafRef` holds, and while it is pending the
     * counter has not passed the end of the text.
     */
    ghost predicate SingleChain()
      reads this
    {
      && frames.pending <= (if rafRef.Some? then {rafRef.value} else {})
      && (frames.pending != {} ==> half <= 2 * |text|)
    }

    /** Mounting: before any trigger the displayed value is the text itself. */
    constructor (text: string, speed: nat, frames: FrameQueue)
      requires frames.Valid()
      ensures Valid() && SingleChain() == (frames.pending == {})
      ensures this.text == text && this.speed == speed && this.frames == frames
      ensures displayed == text && rafRef == None && last == 0 && half == 0
      ensures published == [] && !effectActive
    {
      this.text := text;
      this.speed := speed;
      this.frames := frames;
      displayed := text;
      rafRef := None;
      last := 0;
      half := 0;
      published := [];
      effectActive := false;
    }

    /**
     * `scramble`: reset the counter, take the start time and schedule the
     * first tick. It does not cancel a frame that is still pending, so it
     * starts a single chain only from an idle instance.
     */
    method Scramble(now: nat)
      requires Valid()
      modifies this
      ensures Valid()
      ensures half == 0 && last == now
      ensures rafRef.Some? && rafRef.value !in old(frames.pending)
      ensures frames.pending == old(frames.pending) + {rafRef.value}
      ensures displayed == old(displayed) && published == old(published)
      ensures effectActive == old(effectActive)
      ensures old(frames.pending) == {} ==> SingleChain()
    {
      half := 0;
      last := now;
      var q := frames.Request();
      frames := q.0;
      rafRef := Some(q.1);
    }

    /**
     * `step`: the browser runs pending frame `h` at time `now`. A tick that
     * comes less than `speed` after the last executed one only reschedules;
     * an executed tick publishes the frame for the current half-step, advances
     * the counter by one half-step and schedules the next tick while
     * `iter <= text.length`.
     */
    method Tick(h: FrameHandle, now: nat, draws: seq<GlyphIndex>) returns (executed: bool, scheduled: bool)
      requires Valid() && h in frames.pending && |draws| == |text|
      modifies this
      ensures Valid()
      ensures executed == (now - old(last) >= speed)
      ensures scheduled == (!executed || half <= 2 * |text|)
      ensures executed ==> last == now && half == old(half) + 1
      ensures executed ==> displayed == Frame(text, old(half), draws) && published == old(published) + [displayed]
      ensures !executed ==> last == old(last) && half == old(half)
      ensures !executed ==> displayed == old(displayed) && published == old(published)
      ensures scheduled ==> rafRef.Some? && rafRef.value !in old(frames.pending)
      ensures scheduled ==> frames.pending == old(frames.pending) - {h} + {rafRef.value}
      ensures !scheduled ==> rafRef == old(rafRef) && frames.pending == old(frames.pending) - {h}
      ensures old(SingleChain()) ==> SingleChain()
      ensures old(SingleChain()) && executed && !scheduled ==> displayed == text
      ensures effectActive == old(effectActive)
    {
      frames := frames.Cancel(h);
      if now - last < speed {
        var q := frames.Request();
        frames := q.0;
        rafRef := Some(q.1);
        return false, true;
      }
      last := now;
      var frame := Frame(text, half, draws);
      if half == 2 * |text| {
        FinalFrame(text, draws);
      }
      displayed := frame;
      published := published + [frame];
      half := half + 1;
      executed := true;
      scheduled := half <= 2 * |text|;
      if scheduled {
        var q := frames.Request();
        frames := q.0;
        rafRef := Some(q.1);
      }
    }

    /** The effect body: start a run when the trigger is set. */
    method Effect(trigger: bool, now: nat)
      requires Valid() && !effectActive
      modifies this
      ensures Valid() && effectActive
      ensures !trigger ==> frames == old(frames) && half == old(half) && last == old(last) && rafRef == old(rafRef)
      ensures trigger ==> half == 0 && last == now && rafRef.Some? && rafRef.value !in old(frames.pending)
      ensures trigger ==> frames.pending == old(frames.pending) + {rafRef.value}
      ensures displayed == old(displayed) && published == old(published)
      ensures old(frames.pending) == {} ==> SingleChain()
    {
      if trigger {
        Scramble(now);
      }
      effectActive := true;
    }

    /**
     * The effect cleanup: cancel the frame `rafRef` holds when it is truthy.
     * The ref is not cleared, so a handle that already ran may be cancelled
     * again, which changes nothing.
     */
    method Cleanup()
      requires Valid() && effectActive
      modifies this
      ensures Valid() && !effectActive
      ensures rafRef == old(rafRef) && half == old(half) && last == old(last)
      ensures displayed == old(displayed) && published == old(published)
      ensures rafRef.Some? && rafRef.value != 0 ==> frames == old(frames).Cancel(rafRef.value)
      ensures !(rafRef.Some? && rafRef.value != 0) ==> frames == old(frames)
      ensures old(SingleChain()) ==> frames.pending == {} && SingleChain()
    {
      if rafRef.Some? && rafRef.value != 0 {
        frames := frames.Cancel(rafRef.value);
      }
      effectActive := false;
    }

    /**
     * A triggered run driven to its end by the browser delivering this
     * instance's pending frame every `gap` ms, `gap` being any positive frame
     * interval, `ticks[k]` holding the random draws of the k-th executed tick.
     * Ticks that come too early are gated; the run still ends, publishes
     * exactly the frames of RunFrames, stops with nothing pending, and leaves
     * the text itself on display.
     */
    method PlayThrough(start: nat, gap: nat, ticks: seq<seq<GlyphIndex>>)
      requires Valid() && !effectActive && frames.pending == {} && 1 <= gap
      requires |ticks| == 2 * |text| + 1
      requires forall k :: 0 <= k < |ticks| ==> |ticks[k]| == |text|
      modifies this
      ensures Valid() && SingleChain() && frames.pending == {} && effectActive
      ensures half == 2 * |text| + 1
      ensures published == old(published) + RunFrames(text, 0, ticks)
      ensures displayed == text
    {
      RunEndsWithText(text, ticks);
      RunFramesAt(text, 0, ticks);
      ghost var run := RunFrames(text, 0, ticks);
      Effect(true, start);
      var now: nat := start;
      while frames.pending != {}
        invariant Valid() && SingleChain() && effectActive
        invariant half <= 2 * |text| + 1 && last <= now && now - last <= speed
        invariant frames.pending == {} <==> half == 2 * |text| + 1
        invariant published == old(published) + run[..half]
        invariant half == 2 * |text| + 1 ==> displayed == text
        decreases 2 * |text| + 1 - half, speed - (now - last)
      {
        now := now + gap;
        ghost var before := half;
        assert run[before] == Frame(text, before, ticks[before]);
        var executed, scheduled := Tick(rafRef.value, now, ticks[half]);
        if executed {
          TakeOneMore(run, before);
        }
        if scheduled {
          assert frames.pending != {} && half <= 2 * |text|;
        } else {
          assert frames.pending == {} && half == 2 * |text| + 1;
        }
      }
      assert run[..half] == run;
    }
  }
}
