/**
 * The streaming accumulator of the camera session: a queue-sink listener
 * whose `frames_queued` callback runs the kernel on each delivered frame and
 * adds the event map into `sum_arr` in place, counting the frames.
 */
module ImageAcquisition {
  import opened Grids
  import opened IonEventCounting

  class Listener {
    /** The session's kernel arguments, fixed when the session starts. */
    const params: Params
    /** Number of frames delivered so far. */
    var counter: nat
    /** The running sum of event maps; null (`None`) until the first frame. */
    var sumArr: array2?<int>
    /** The event maps of the frames delivered so far, in delivery order. */
    ghost var maps: seq<Grid>

    ghost predicate Valid()
      reads this, sumArr
    {
      && ParamsOk(params)
      && counter == |maps|
      && (sumArr == null <==> |maps| == 0)
      && (sumArr != null ==>
            && (forall k :: 0 <= k < |maps| ==> IsRect(maps[k]) && |maps[k]| == sumArr.Length0 && Width(maps[k]) == sumArr.Length1)
            && Contents(sumArr) == SumOf(maps))
    }

    /** `__init__`: no frame seen, no sum allocated. */
    constructor (threshold: int, mode: int, nxnarea: int, multiplyFactor: int, intOffset: int, eventSize: int)
      requires ParamsOk(Params(threshold, mode, nxnarea, multiplyFactor, intOffset, eventSize))
      ensures Valid()
      ensures params == Params(threshold, mode, nxnarea, multiplyFactor, intOffset, eventSize)
      ensures counter == 0 && sumArr == null && maps == []
    {
      params := Params(threshold, mode, nxnarea, multiplyFactor, intOffset, eventSize);
      counter := 0;
      sumArr := null;
      maps := [];
    }

    /** `sink_connected`: accept every connection, whatever the buffer requirement. */
    method SinkConnected(minBuffersRequired: int) returns (accept: bool)
      ensures accept
    {
      accept := true;
    }

    /**
     * `frames_queued`: compute the frame's event map with the session's
     * parameters, allocate a zero sum of its shape on the first frame, add
     * the map in place, and count the frame.
     */
    method FramesQueued(frame: Grid)
      requires Valid() && IsRect(frame)
      requires sumArr != null ==> |frame| == sumArr.Length0 && Width(frame) == sumArr.Length1
      modifies this, sumArr
      ensures Valid()
      ensures counter == old(counter) + 1
      ensures maps == old(maps) + [EventMap(frame, params)]
      ensures old(sumArr) != null ==> sumArr == old(sumArr)
      ensures old(sumArr) == null ==> fresh(sumArr)
      ensures sumArr != null && sumArr.Length0 == |frame| && sumArr.Length1 == Width(frame)
    {
      var eventCount, _ := EventCounting(frame, params);
      ghost var m := EventMap(frame, params);
      if sumArr == null {
        sumArr := new int[eventCount.Length0, eventCount.Length1]((i, j) => 0);
      }
      ghost var before := Contents(sumArr);
      AddInto(sumArr, eventCount);
      ghost var after := Contents(sumArr);
      if |maps| == 0 {
        GridExt(after, m);
      } else {
        SumOfSnoc(maps, m);
        GridExt(after, Add(before, m));
      }
      maps := maps + [m];
      counter := counter + 1;
    }
  }

  /**
   * After the session's frames have been delivered in order, the listener
   * has counted them and holds the elementwise sum of their event maps.
   */
  method Session(params: Params, frames: seq<Grid>) returns (listener: Listener)
    requires ParamsOk(params)
    requires forall k :: 0 <= k < |frames| ==> IsRect(frames[k]) && SameShape(frames[k], frames[0])
    ensures listener.Valid() && listener.params == params
    ensures listener.counter == |frames|
    ensures |listener.maps| == |frames|
    ensures forall k :: 0 <= k < |frames| ==> listener.maps[k] == EventMap(frames[k], params)
    ensures (listener.sumArr == null) == (|frames| == 0)
    ensures listener.sumArr != null ==> Uniform(listener.maps) && Contents(listener.sumArr) == SumOf(listener.maps)
  {
    listener := new Listener(params.threshold, params.mode, params.nxnarea, params.multiplyFactor, params.intOffset, params.eventSize);
    for i := 0 to |frames|
      invariant listener.Valid() && listener.params == params
      invariant listener.counter == i && |listener.maps| == i
      invariant forall k :: 0 <= k < i ==> listener.maps[k] == EventMap(frames[k], params)
      invariant listener.sumArr != null ==> listener.sumArr.Length0 == |frames[0]| && listener.sumArr.Length1 == Width(frames[0])
      invariant fresh(listener) && (listener.sumArr != null ==> fresh(listener.sumArr))
    {
      listener.FramesQueued(frames[i]);
    }
  }
}
