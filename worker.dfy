/** The message handler of src/worker.ts: a request names an operation,
    carries the pixel buffer and its options, and is answered with at most
    one response message. */
module Worker {
  import opened Wrappers
  import opened ColorSpace
  import opened Pixels
  import Recolor
  import Dominant

  /** `WorkerMessage`: `kind` is the `type` field, any string at run time. */
  datatype Request = Request(id: string, kind: string, ignoreWhites: bool, ignoreBlacks: bool,
                             width: nat, height: nat, sourceColor: Option<Rgb>, targetColor: Option<Rgb>,
                             buffer: seq<Byte>)

  /** `WorkerMessageResponse`; absent optional fields are None. */
  datatype Response = Response(id: string, kind: string, color: Option<Rgb>, buffer: Option<seq<Byte>>,
                               width: Option<nat>, height: Option<nat>)

  /** The message posted back for a request, or None when nothing is posted:
      an unknown `type`, or a colorize request without a source or target
      colour (the conversion of the missing colour throws). */
  function Reply(pow: Pow, msg: Request): Option<Response>
    requires 4 * (msg.width * msg.height) <= |msg.buffer|
  {
    if msg.kind == "colorize" then
      if msg.sourceColor.None? || msg.targetColor.None? then None
      else
        var correct := Recolor.Corrector(pow, msg.sourceColor.value, msg.targetColor.value);
        var pixels := Recolor.Recolored(msg.buffer, msg.width * msg.height, correct, msg.ignoreWhites, msg.ignoreBlacks);
        Some(Response(msg.id, msg.kind, None, Some(pixels), Some(msg.width), Some(msg.height)))
    else if msg.kind == "dominantColor" then
      var color := Dominant.DominantColorOf(msg.buffer, msg.width * msg.height, msg.ignoreWhites, msg.ignoreBlacks);
      Some(Response(msg.id, msg.kind, Some(color), None, None, None))
    else None
  }

  /** `self.onmessage`: runs the requested operation on a fresh array holding
      the request's buffer and builds the response. */
  method OnMessage(pow: Pow, msg: Request) returns (response: Option<Response>)
    requires 4 * (msg.width * msg.height) <= |msg.buffer|
    ensures response == Reply(pow, msg)
  {
    var rgba := new Byte[|msg.buffer|](i requires 0 <= i < |msg.buffer| => msg.buffer[i]);
    assert rgba[..] == msg.buffer;
    match msg.kind {
      case "colorize" =>
        if msg.sourceColor.None? || msg.targetColor.None? {
          return None;
        }
        Recolor.Recolorize(pow, rgba, msg.width, msg.height, msg.sourceColor.value, msg.targetColor.value,
                           msg.ignoreWhites, msg.ignoreBlacks);
        response := Some(Response(msg.id, msg.kind, None, Some(rgba[..]), Some(msg.width), Some(msg.height)));
      case "dominantColor" =>
        var color := Dominant.DominantColor(rgba, msg.width, msg.height, msg.ignoreWhites, msg.ignoreBlacks);
        response := Some(Response(msg.id, msg.kind, Some(color), None, None, None));
      case _ =>
        response := None;
    }
  }

  /** A response is posted exactly for the two known operations, and for
      colorize only when both colours are present; it always echoes the
      request's id and type. */
  lemma ReplyWhen(pow: Pow, msg: Request)
    requires 4 * (msg.width * msg.height) <= |msg.buffer|
    ensures Reply(pow, msg).Some? <==>
            (msg.kind == "dominantColor" || (msg.kind == "colorize" && msg.sourceColor.Some? && msg.targetColor.Some?))
    ensures Reply(pow, msg).Some? ==> Reply(pow, msg).value.id == msg.id && Reply(pow, msg).value.kind == msg.kind
  {
  }

  /** Every colorize request with both colours, empty images included, is
      answered with its id, type, width and height, no colour, and a buffer
      of the request's length. */
  lemma ColorizeReply(pow: Pow, msg: Request)
    requires 4 * (msg.width * msg.height) <= |msg.buffer|
    requires msg.kind == "colorize" && msg.sourceColor.Some? && msg.targetColor.Some?
    ensures var r := Reply(pow, msg).value;
            r.id == msg.id && r.kind == msg.kind && r.color.None?
            && r.width == Some(msg.width) && r.height == Some(msg.height)
            && r.buffer.Some? && |r.buffer.value| == |msg.buffer|
  {
  }

  /** In a colorize response, pixel n keeps its alpha byte and is corrected
      when it passes the filter, kept otherwise. */
  lemma ColorizeReplyPixel(pow: Pow, msg: Request, n: nat)
    requires 4 * (msg.width * msg.height) <= |msg.buffer|
    requires msg.kind == "colorize" && msg.sourceColor.Some? && msg.targetColor.Some?
    requires n < msg.width * msg.height
    ensures var r := Reply(pow, msg).value;
            var pixel := ColorAt(msg.buffer, n);
            r.buffer.Some? && |r.buffer.value| == |msg.buffer|
            && r.buffer.value[4 * n + 3] == msg.buffer[4 * n + 3]
            && ColorAt(r.buffer.value, n)
               == if Included(pixel, msg.ignoreWhites, msg.ignoreBlacks)
                  then ApplyCorrection(pow, pixel, ColorCorrection(pow, msg.sourceColor.value, msg.targetColor.value))
                  else pixel
  {
    var correct := Recolor.Corrector(pow, msg.sourceColor.value, msg.targetColor.value);
    Recolor.RecoloredPixel(msg.buffer, msg.width * msg.height, correct, msg.ignoreWhites, msg.ignoreBlacks, n);
  }

  /** A dominantColor response carries only the colour dominantColor
      computes on the request's buffer, which is white when no pixel passes
      the filter. */
  lemma DominantReply(pow: Pow, msg: Request)
    requires 4 * (msg.width * msg.height) <= |msg.buffer|
    requires msg.kind == "dominantColor"
    ensures var r := Reply(pow, msg).value;
            r.id == msg.id && r.kind == msg.kind && r.buffer.None? && r.width.None? && r.height.None?
            && r.color == Some(Dominant.DominantColorOf(msg.buffer, msg.width * msg.height, msg.ignoreWhites, msg.ignoreBlacks))
    ensures (forall n :: 0 <= n < msg.width * msg.height ==>
               !Included(ColorAt(msg.buffer, n), msg.ignoreWhites, msg.ignoreBlacks))
            ==> Reply(pow, msg).value.color == Some(White)
  {
    if forall n :: 0 <= n < msg.width * msg.height ==>
         !Included(ColorAt(msg.buffer, n), msg.ignoreWhites, msg.ignoreBlacks)
    {
      Dominant.DominantDefaultsToWhite(msg.buffer, msg.width * msg.height, msg.ignoreWhites, msg.ignoreBlacks);
    }
  }
}
