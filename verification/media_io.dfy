/** Opening the input and output of a transcode. Both transcoders (the GPU one and
    the filter-graph one) carry identical copies of this code: find the first video
    stream, open its decoder, then create the H.264 encoder and the output file.
    Every FFmpeg call is an outcome parameter. */
module MediaIO {
  import opened Prelude

  /** The media type of a stream of the input container. */
  datatype MediaType = Video | Audio | Subtitle | Data | Attachment | Unknown

  /** One stream of the input container, with the frame size its parameters record. */
  datatype StreamInfo = StreamInfo(kind: MediaType, width: int, height: int)

  /** The index of the first video stream, or -1 when the container has none. */
  function FirstVideoStream(streams: seq<StreamInfo>): (index: int)
    ensures -1 <= index < |streams|
    ensures index == -1 <==> forall i :: 0 <= i < |streams| ==> streams[i].kind != Video
    ensures index >= 0 ==>
      streams[index].kind == Video && forall i :: 0 <= i < index ==> streams[i].kind != Video
  {
    if |streams| == 0 then -1
    else if streams[0].kind == Video then 0
    else
      var rest := FirstVideoStream(streams[1..]);
      assert forall i :: 1 <= i < |streams| ==> streams[i] == streams[1..][i - 1];
      if rest == -1 then -1 else rest + 1
  }

  /** Streams appended to a container do not change which video stream is found
      first; if there was none, the search continues into the new streams. */
  lemma {:induction false} FirstVideoStreamAppend(streams: seq<StreamInfo>, more: seq<StreamInfo>)
    ensures FirstVideoStream(streams) >= 0 ==> FirstVideoStream(streams + more) == FirstVideoStream(streams)
    ensures FirstVideoStream(streams) == -1 ==>
      FirstVideoStream(streams + more) == (if FirstVideoStream(more) == -1 then -1 else |streams| + FirstVideoStream(more))
  {
    var all := streams + more;
    var k := FirstVideoStream(streams);
    if k >= 0 {
      assert all[k] == streams[k];
      assert forall i :: 0 <= i < k ==> all[i] == streams[i];
    } else {
      var m := FirstVideoStream(more);
      assert forall i :: 0 <= i < |more| ==> all[|streams| + i] == more[i];
      if m >= 0 {
        assert all[|streams| + m] == more[m];
      }
    }
  }

  /** The answers of the two container calls made before any stream is inspected. */
  datatype ProbeOutcomes = ProbeOutcomes(openOk: bool, streamInfoOk: bool)

  /** The frame size of a file's first video stream, or None when the file cannot be
      opened or probed or has no video stream. */
  function VideoDimensions(probe: ProbeOutcomes, streams: seq<StreamInfo>): (size: Option<(int, int)>)
    ensures size.Some? <==>
      probe.openOk && probe.streamInfoOk && exists i :: 0 <= i < |streams| && streams[i].kind == Video
    ensures size.Some? ==>
      var k := FirstVideoStream(streams);
      0 <= k && size.value == (streams[k].width, streams[k].height)
  {
    if !probe.openOk || !probe.streamInfoOk then None
    else
      var k := FirstVideoStream(streams);
      if k == -1 then None else Some((streams[k].width, streams[k].height))
  }

  /** The steps of opening the input, in order. */
  datatype InputStep = OpenInputFile | FindStreamInfo | FindVideo | FindDecoder |
                       AllocDecoderContext | CopyDecoderParameters | OpenDecoder

  const InputOrder: seq<InputStep> :=
    [OpenInputFile, FindStreamInfo, FindVideo, FindDecoder, AllocDecoderContext, CopyDecoderParameters, OpenDecoder]

  /** The opened input: the video stream index (-1 if not found) and the decoder's
      frame size, which is only taken once the decoder is open. */
  datatype InputOpened = InputOpened(ok: bool, attempted: seq<InputStep>, videoIndex: int, width: int, height: int)

  /** Whether an input step succeeds: the stream search succeeds when the container
      has a video stream, every other step as the library answers. */
  function InputStepOk(streams: seq<StreamInfo>, stepOk: InputStep -> bool): (ok: InputStep -> bool)
    ensures ok(FindVideo) <==> FirstVideoStream(streams) >= 0
    ensures forall s :: s != FindVideo ==> ok(s) == stepOk(s)
  {
    s => if s == FindVideo then FirstVideoStream(streams) >= 0 else stepOk(s)
  }

  /** Opens the input, stopping at the first failing step. */
  function OpenInput(streams: seq<StreamInfo>, stepOk: InputStep -> bool,
                     decoderWidth: int, decoderHeight: int, oldWidth: int, oldHeight: int): (r: InputOpened)
    ensures r.attempted == FailFast(InputOrder, InputStepOk(streams, stepOk))
    ensures r.ok <==> AllSucceeded(InputOrder, InputStepOk(streams, stepOk))
    ensures r.ok ==> 0 <= r.videoIndex < |streams| && streams[r.videoIndex].kind == Video
    ensures r.ok ==> r.width == decoderWidth && r.height == decoderHeight
    ensures !r.ok ==> r.width == oldWidth && r.height == oldHeight
    ensures |r.attempted| >= 3 ==> r.videoIndex == FirstVideoStream(streams)
    ensures r.ok ==> r.videoIndex == FirstVideoStream(streams)
  {
    var ok := InputStepOk(streams, stepOk);
    var ran := FailFast(InputOrder, ok);
    FailFastFirstFailure(InputOrder, ok);
    var index := if |ran| >= 3 then FirstVideoStream(streams) else -1;
    if ran == InputOrder && ok(OpenDecoder) then
      assert ok(FindVideo);
      InputOpened(true, ran, index, decoderWidth, decoderHeight)
    else InputOpened(false, ran, index, oldWidth, oldHeight)
  }

  /** An input without a video stream is never opened, and its decoder is never looked for. */
  lemma OpenInputNeedsVideo(streams: seq<StreamInfo>, stepOk: InputStep -> bool,
                            decoderWidth: int, decoderHeight: int, oldWidth: int, oldHeight: int)
    requires forall i :: 0 <= i < |streams| ==> streams[i].kind != Video
    ensures var r := OpenInput(streams, stepOk, decoderWidth, decoderHeight, oldWidth, oldHeight);
      !r.ok && FindDecoder !in r.attempted
  {
    var ok := InputStepOk(streams, stepOk);
    FailFastFirstFailure(InputOrder, ok);
    assert !ok(InputOrder[2]);
  }

  /** The steps of opening the output, in order. */
  datatype OutputStep = AllocOutputContext | FindEncoder | NewStream | AllocEncoderContext |
                        OpenEncoder | CopyEncoderParameters | OpenOutputFile | WriteHeader

  /** The output order; a container that needs no file skips opening one. */
  function OutputOrder(noFile: bool): (order: seq<OutputStep>)
    ensures OpenOutputFile in order <==> !noFile
    ensures |order| == if noFile then 7 else 8
    ensures order[0] == AllocOutputContext && order[|order| - 1] == WriteHeader
  {
    [AllocOutputContext, FindEncoder, NewStream, AllocEncoderContext, OpenEncoder, CopyEncoderParameters] +
    (if noFile then [] else [OpenOutputFile]) + [WriteHeader]
  }

  datatype OutputOpened = OutputOpened(ok: bool, attempted: seq<OutputStep>)

  /** Opens the output, stopping at the first failing step. */
  function OpenOutput(noFile: bool, stepOk: OutputStep -> bool): (r: OutputOpened)
    ensures r.attempted == FailFast(OutputOrder(noFile), stepOk)
    ensures r.ok <==> AllSucceeded(OutputOrder(noFile), stepOk)
    ensures r.ok ==> WriteHeader in r.attempted
  {
    var order := OutputOrder(noFile);
    FailFastFirstFailure(order, stepOk);
    var ran := FailFast(order, stepOk);
    OutputOpened(ran == order && stepOk(order[|order| - 1]), ran)
  }
}
