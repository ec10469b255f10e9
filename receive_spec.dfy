/** What the receive loops compute, as pure functions over the sequence of
    frames the transport delivers. A frame is the length that a receive
    reports together with the bytes it stores at the front of the receive
    buffer. */
module ReceiveSpec {
  import opened DataPacker
  import opened SMBHeader

  datatype Frame = Frame(len: int, data: seq<byte>)

  /** The receive buffer after a frame is stored into it: the frame's bytes
      from offset 0 on; bytes past the end of the buffer are not stored. */
  function Overlay(buf: seq<byte>, data: seq<byte>): (r: seq<byte>)
    ensures |r| == |buf|
    ensures forall i :: 0 <= i < |buf| ==> r[i] == if i < |data| then data[i] else buf[i]
  {
    if |data| >= |buf| then data[..|buf|] else data + buf[|data|..]
  }

  /** A frame long enough to hold an SMB header. */
  predicate Long(f: Frame)
  {
    f.len >= MIN_RXLEN
  }

  /** How a receive loop ended: on a frame for the expected command, on a
      frame too short for an SMB header, or because the transport had no
      more frames (its receive fails). */
  datatype Stop = Matched | Short | Closed

  /** The end state of a receive loop: how it stopped, the frames not yet
      received, the receive buffer and, in order, the buffers passed on as
      asynchronous responses. */
  datatype Wait = Wait(stop: Stop, rest: seq<Frame>, rx: seq<byte>, diverted: seq<seq<byte>>)

  /** The receive loop: receive frames into rx until a long frame carries the
      command T. A long frame with another command is passed on as an
      asynchronous response. A short frame ends the loop when strict, and is
      skipped otherwise. */
  function Await(frames: seq<Frame>, rx: seq<byte>, T: int, strict: bool): (w: Wait)
    requires COMMAND < |rx|
    ensures |w.rx| == |rx|
    decreases |frames|
  {
    if frames == [] then Wait(Closed, [], rx, [])
    else
      var rx' := Overlay(rx, frames[0].data);
      if Long(frames[0]) then
        if Command(rx') == T then Wait(Matched, frames[1..], rx', [])
        else
          var w := Await(frames[1..], rx', T, strict);
          w.(diverted := [rx'] + w.diverted)
      else if strict then Wait(Short, frames[1..], rx', [])
      else Await(frames[1..], rx', T, strict)
  }

  /** A loop end state with the buffers d passed on before it. */
  function Divert(d: seq<seq<byte>>, w: Wait): Wait
  {
    w.(diverted := d + w.diverted)
  }

  /** Passing on d and then x is passing on d + [x]. */
  lemma DivertTwice(d: seq<seq<byte>>, x: seq<byte>, w: Wait)
    ensures Divert(d, Divert([x], w)) == Divert(d + [x], w)
  {
    assert d + ([x] + w.diverted) == (d + [x]) + w.diverted;
  }

  /** One turn of the loop: the first frame either ends it, or is passed on
      (long, another command), or is skipped (short, lenient). */
  lemma AwaitStep(frames: seq<Frame>, rx: seq<byte>, T: int, strict: bool)
    requires COMMAND < |rx| && frames != []
    ensures var rx' := Overlay(rx, frames[0].data);
      var w := Await(frames, rx, T, strict);
      && (Long(frames[0]) && Command(rx') == T ==> w == Wait(Matched, frames[1..], rx', []))
      && (Long(frames[0]) && Command(rx') != T ==> w == Divert([rx'], Await(frames[1..], rx', T, strict)))
      && (!Long(frames[0]) && strict ==> w == Wait(Short, frames[1..], rx', []))
      && (!Long(frames[0]) && !strict ==> w == Await(frames[1..], rx', T, strict))
  {
  }

  // ---------------------------------------------------------------------
  // The same loops described frame by frame

  /** The receive buffer after each frame. */
  function Buffers(frames: seq<Frame>, rx: seq<byte>): (r: seq<seq<byte>>)
    ensures |r| == |frames|
    ensures forall i :: 0 <= i < |r| ==> |r[i]| == |rx|
    decreases |frames|
  {
    if frames == [] then []
    else
      var rx' := Overlay(rx, frames[0].data);
      [rx'] + Buffers(frames[1..], rx')
  }

  /** Frame i is a response to the command T. */
  predicate Hit(frames: seq<Frame>, rx: seq<byte>, T: int, i: int)
    requires COMMAND < |rx| && 0 <= i < |frames|
  {
    Long(frames[i]) && Command(Buffers(frames, rx)[i]) == T
  }

  /** The buffers of the long frames among the first n, in order. */
  function LongBuffers(frames: seq<Frame>, bufs: seq<seq<byte>>): (r: seq<seq<byte>>)
    requires |bufs| == |frames|
    ensures |r| <= |frames|
  {
    if frames == [] then []
    else (if Long(frames[0]) then [bufs[0]] else []) + LongBuffers(frames[1..], bufs[1..])
  }

  /** The buffers after the first frame are those of the remaining frames
      received into the buffer the first one left. */
  lemma BuffersTail(frames: seq<Frame>, rx: seq<byte>, i: int)
    requires frames != [] && 0 <= i < |frames| - 1
    ensures Buffers(frames, rx)[i + 1] == Buffers(frames[1..], Overlay(rx, frames[0].data))[i]
  {
  }

  /** Peeling the first frame off a prefix of n frames. */
  lemma LongBuffersStep(frames: seq<Frame>, rx: seq<byte>, n: int)
    requires 0 < n <= |frames|
    ensures var bs := Buffers(frames, rx);
      var rx' := Overlay(rx, frames[0].data);
      LongBuffers(frames[..n], bs[..n]) ==
        (if Long(frames[0]) then [rx'] else []) + LongBuffers(frames[1..][..n - 1], Buffers(frames[1..], rx')[..n - 1])
  {
    var bs := Buffers(frames, rx);
    var rx' := Overlay(rx, frames[0].data);
    assert frames[..n][1..] == frames[1..][..n - 1];
    assert bs[..n][1..] == Buffers(frames[1..], rx')[..n - 1];
  }

  /** The lenient loop (a short frame is skipped) returns at the first long
      frame for T, with that frame's buffer and the frames after it left
      unreceived, having passed on the buffer of every earlier long frame,
      in order; without such a frame it ends when the frames run out, having
      passed on every long frame. It never stops on a short frame. */
  lemma {:induction false} AwaitLenient(frames: seq<Frame>, rx: seq<byte>, T: int)
    requires COMMAND < |rx|
    ensures var w := Await(frames, rx, T, false);
      && w.stop != Short
      && (w.stop == Matched <==> exists i :: 0 <= i < |frames| && Hit(frames, rx, T, i))
      && (w.stop == Matched ==> MatchedAt(frames, rx, T, w))
      && (w.stop == Closed ==>
            && w.rest == []
            && w.diverted == LongBuffers(frames, Buffers(frames, rx)))
    decreases |frames|
  {
    if frames != [] {
      var rx' := Overlay(rx, frames[0].data);
      var tail := frames[1..];
      assert Buffers(frames, rx) == [rx'] + Buffers(tail, rx');
      if Long(frames[0]) && Command(rx') == T {
        assert Hit(frames, rx, T, 0);
        assert frames[1..] == frames[0 + 1..];
      } else {
        AwaitLenient(tail, rx', T);
        assert !Hit(frames, rx, T, 0);
        HitShift(frames, rx, T);
        if Await(tail, rx', T, false).stop == Matched {
          LenientStepMatched(frames, rx, T);
        } else {
          LenientStepClosed(frames, rx, T);
        }
      }
    }
  }

  /** The lenient loop never stops on a short frame. */
  lemma {:induction false} LenientNeverShort(frames: seq<Frame>, rx: seq<byte>, T: int)
    requires COMMAND < |rx|
    ensures Await(frames, rx, T, false).stop != Short
    decreases |frames|
  {
    if frames != [] {
      LenientNeverShort(frames[1..], Overlay(rx, frames[0].data), T);
    }
  }

  /** Frame m + 1 is a response exactly when frame m of the rest is one,
      received into the buffer the first frame left. */
  lemma HitShift(frames: seq<Frame>, rx: seq<byte>, T: int)
    requires COMMAND < |rx| && frames != []
    ensures forall m :: 1 <= m < |frames| ==>
      Hit(frames, rx, T, m) == Hit(frames[1..], Overlay(rx, frames[0].data), T, m - 1)
  {
    forall m | 1 <= m < |frames|
      ensures Hit(frames, rx, T, m) == Hit(frames[1..], Overlay(rx, frames[0].data), T, m - 1)
    {
      BuffersTail(frames, rx, m - 1);
    }
  }

  /** The lenient loop returned at frame n = |frames| - |rest| - 1, the first
      response to T, having passed on the earlier long frames. */
  predicate MatchedAt(frames: seq<Frame>, rx: seq<byte>, T: int, w: Wait)
    requires COMMAND < |rx|
  {
    var n := |frames| - |w.rest| - 1;
    && 0 <= n < |frames|
    && w.rest == frames[n + 1..]
    && Hit(frames, rx, T, n)
    && (forall m :: 0 <= m < n ==> !Hit(frames, rx, T, m))
    && w.rx == Buffers(frames, rx)[n]
    && w.diverted == LongBuffers(frames[..n], Buffers(frames, rx)[..n])
  }

  /** The inductive step of AwaitLenient when a later frame is the response. */
  lemma LenientStepMatched(frames: seq<Frame>, rx: seq<byte>, T: int)
    requires COMMAND < |rx| && frames != []
    requires !(Long(frames[0]) && Command(Overlay(rx, frames[0].data)) == T)
    requires var w' := Await(frames[1..], Overlay(rx, frames[0].data), T, false);
      w'.stop == Matched && MatchedAt(frames[1..], Overlay(rx, frames[0].data), T, w')
    requires forall m :: 1 <= m < |frames| ==>
      Hit(frames, rx, T, m) == Hit(frames[1..], Overlay(rx, frames[0].data), T, m - 1)
    ensures Await(frames, rx, T, false).stop == Matched
    ensures MatchedAt(frames, rx, T, Await(frames, rx, T, false))
  {
    var rx' := Overlay(rx, frames[0].data);
    var tail := frames[1..];
    var w' := Await(tail, rx', T, false);
    var w := Await(frames, rx, T, false);
    AwaitStep(frames, rx, T, false);
    assert w.stop == w'.stop && w.rest == w'.rest && w.rx == w'.rx;
    assert w.diverted == (if Long(frames[0]) then [rx'] else []) + w'.diverted;
    var n' := |tail| - |w'.rest| - 1;
    var n := n' + 1;
    assert |frames| - |w.rest| - 1 == n;
    assert w.rest == frames[n + 1..] by {
      assert frames[n' + 2..] == tail[n' + 1..];
    }
    assert Hit(frames, rx, T, n);
    assert forall m :: 0 <= m < n ==> !Hit(frames, rx, T, m) by {
      assert !Hit(frames, rx, T, 0);
    }
    assert w.rx == Buffers(frames, rx)[n] by {
      BuffersTail(frames, rx, n');
    }
    assert w.diverted == LongBuffers(frames[..n], Buffers(frames, rx)[..n]) by {
      LongBuffersStep(frames, rx, n);
    }
  }

  /** The inductive step of AwaitLenient when no later frame is the response. */
  lemma LenientStepClosed(frames: seq<Frame>, rx: seq<byte>, T: int)
    requires COMMAND < |rx| && frames != []
    requires !(Long(frames[0]) && Command(Overlay(rx, frames[0].data)) == T)
    requires var w' := Await(frames[1..], Overlay(rx, frames[0].data), T, false);
      && w'.stop == Closed && w'.rest == []
      && w'.diverted == LongBuffers(frames[1..], Buffers(frames[1..], Overlay(rx, frames[0].data)))
      && (forall i :: 0 <= i < |frames| - 1 ==> !Hit(frames[1..], Overlay(rx, frames[0].data), T, i))
    requires forall m :: 1 <= m < |frames| ==>
      Hit(frames, rx, T, m) == Hit(frames[1..], Overlay(rx, frames[0].data), T, m - 1)
    ensures var w := Await(frames, rx, T, false);
      && w.stop == Closed && w.rest == []
      && w.diverted == LongBuffers(frames, Buffers(frames, rx))
    ensures forall m :: 0 <= m < |frames| ==> !Hit(frames, rx, T, m)
  {
    var rx' := Overlay(rx, frames[0].data);
    var tail := frames[1..];
    var bs := Buffers(frames, rx);
    AwaitStep(frames, rx, T, false);
    forall m | 0 <= m < |frames| ensures !Hit(frames, rx, T, m) {
      if m > 0 {
        assert !Hit(tail, rx', T, m - 1);
      }
    }
    assert LongBuffers(frames, bs) ==
      (if Long(frames[0]) then [rx'] else []) + LongBuffers(tail, Buffers(tail, rx')) by {
      LongBuffersStep(frames, rx, |frames|);
      assert frames[..|frames|] == frames;
      assert bs[..|frames|] == bs;
      assert tail[..|frames| - 1] == tail;
      assert Buffers(tail, rx')[..|frames| - 1] == Buffers(tail, rx');
    }
  }

  /** A frame that ends the strict loop: a short one, or a response to T. */
  predicate Ends(frames: seq<Frame>, rx: seq<byte>, T: int, i: int)
    requires COMMAND < |rx| && 0 <= i < |frames|
  {
    !Long(frames[i]) || Hit(frames, rx, T, i)
  }

  /** The strict loop stops at the first frame that is short or for T: on a
      response it returns with that frame's buffer, on a short frame it fails;
      every frame before it was long and was passed on, in order. Without
      such a frame it ends when the frames run out, having passed on every
      frame. */
  lemma {:induction false} AwaitStrict(frames: seq<Frame>, rx: seq<byte>, T: int)
    requires COMMAND < |rx|
    ensures var w := Await(frames, rx, T, true);
      && (w.stop == Closed <==> forall i :: 0 <= i < |frames| ==> !Ends(frames, rx, T, i))
      && (w.stop != Closed ==> StoppedAt(frames, rx, T, w))
      && (w.stop == Closed ==> w.rest == [] && w.diverted == Buffers(frames, rx))
    decreases |frames|
  {
    if frames != [] {
      var rx' := Overlay(rx, frames[0].data);
      var tail := frames[1..];
      assert Buffers(frames, rx) == [rx'] + Buffers(tail, rx');
      if !Long(frames[0]) || Command(rx') == T {
        assert Ends(frames, rx, T, 0);
        assert frames[1..] == frames[0 + 1..];
      } else {
        AwaitStrict(tail, rx', T);
        forall m | 1 <= m < |frames|
          ensures Ends(frames, rx, T, m) == Ends(tail, rx', T, m - 1)
        {
          BuffersTail(frames, rx, m - 1);
        }
        if Await(tail, rx', T, true).stop != Closed {
          StrictStepStopped(frames, rx, T);
        } else {
          forall m | 0 <= m < |frames| ensures !Ends(frames, rx, T, m) {
            if m > 0 {
              assert !Ends(tail, rx', T, m - 1);
            }
          }
        }
      }
    }
  }

  /** The strict loop stopped at frame n = |frames| - |rest| - 1, the first
      frame that ends it; the frames before it were passed on. */
  predicate StoppedAt(frames: seq<Frame>, rx: seq<byte>, T: int, w: Wait)
    requires COMMAND < |rx|
  {
    var n := |frames| - |w.rest| - 1;
    && 0 <= n < |frames|
    && w.rest == frames[n + 1..]
    && Ends(frames, rx, T, n)
    && (w.stop == Matched <==> Long(frames[n]))
    && (forall m :: 0 <= m < n ==> !Ends(frames, rx, T, m))
    && w.rx == Buffers(frames, rx)[n]
    && w.diverted == Buffers(frames, rx)[..n]
  }

  /** The inductive step of AwaitStrict when the loop stops after the first frame. */
  lemma StrictStepStopped(frames: seq<Frame>, rx: seq<byte>, T: int)
    requires COMMAND < |rx| && frames != []
    requires Long(frames[0]) && Command(Overlay(rx, frames[0].data)) != T
    requires var w' := Await(frames[1..], Overlay(rx, frames[0].data), T, true);
      w'.stop != Closed && StoppedAt(frames[1..], Overlay(rx, frames[0].data), T, w')
    requires forall m :: 1 <= m < |frames| ==>
      Ends(frames, rx, T, m) == Ends(frames[1..], Overlay(rx, frames[0].data), T, m - 1)
    ensures StoppedAt(frames, rx, T, Await(frames, rx, T, true))
  {
    var rx' := Overlay(rx, frames[0].data);
    var tail := frames[1..];
    var w' := Await(tail, rx', T, true);
    var w := Await(frames, rx, T, true);
    var bs := Buffers(frames, rx);
    assert bs == [rx'] + Buffers(tail, rx');
    assert w.stop == w'.stop && w.rest == w'.rest && w.rx == w'.rx;
    assert w.diverted == [rx'] + w'.diverted;
    assert !Ends(frames, rx, T, 0);
    var n' := |tail| - |w'.rest| - 1;
    assert Ends(frames, rx, T, n' + 1);
    assert frames[n' + 2..] == tail[n' + 1..];
    BuffersTail(frames, rx, n');
    assert bs[..n' + 1] == [rx'] + Buffers(tail, rx')[..n'];
  }
}
