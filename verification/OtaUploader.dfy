/** The host side of an upload, run against every behaviour of an unreliable link. */
module OtaUploader {
  import opened Bytes
  import opened Arrays
  import opened OtaCodec
  import opened OtaPackage
  import opened OtaDevice
  import Crc32

  /** One arrival at the device: the message just sent, an earlier frame, or the begin command once more. */
  datatype Delivery = Newest(damage: Damage) | Earlier(index: nat, damage: Damage) | Command(damage: Damage)

  /**
   * What a read does: it times out, takes the oldest unread reply, sees any reply of the session, or
   * times out because all replies on their way were lost.
   */
  datatype Reading = TimesOut | OldestUnread | AnyReply(index: nat) | Missed

  datatype Sent = Sent(frame: UploadFrame, acked: nat)

  datatype Snapshot = Snapshot(device: Device, acked: nat, begun: bool, wiped: bool)

  predicate Reaches(d: Delivery, sent: nat) {
    d.Earlier? ==> d.index < sent
  }

  /** How many of the deliveries reach the device when `sent` frames have been sent. */
  function Arrivals(ds: seq<Delivery>, sent: nat): nat {
    if ds == [] then 0
    else Arrivals(ds[..|ds| - 1], sent) + if Reaches(ds[|ds| - 1], sent) then 1 else 0
  }

  lemma ArrivalsStep(ds: seq<Delivery>, i: nat, sent: nat)
    requires i < |ds|
    ensures Arrivals(ds[..i + 1], sent) == Arrivals(ds[..i], sent) + if Reaches(ds[i], sent) then 1 else 0
  {
    assert ds[..i + 1][..i] == ds[..i];
  }

  /**
   * The link.  Its behaviour is given by functions of time, so a fact about every link is a fact
   * about every schedule: `delivers` says what reaches the device at a send (in any order, any number
   * of times, each intact or damaged), `answers` what a read returns, `cancels` when the user asks to
   * stop.
   */
  class Link {
    const profile: Profile
    const delivers: nat -> seq<Delivery>
    const answers: nat -> Reading
    const cancels: nat -> bool
    var clock: nat
    var device: Device
    var sent: seq<seq<byte>>
    var produced: seq<Reply>
    var taken: nat
    ghost var begun: bool
    /** A begin command has reached the device while it held bytes of this session. */
    ghost var wiped: bool
    ghost var acked: nat
    ghost var log: seq<Sent>
    ghost var trace: seq<Snapshot>
    /** When each exchange started, and the answers that exchanges have accepted. */
    ghost var exchanges: seq<nat>
    ghost var accepted: seq<Response>

    constructor (profile: Profile, delivers: nat -> seq<Delivery>, answers: nat -> Reading, cancels: nat -> bool,
                 device: Device)
      ensures Idle() && this.profile == profile && this.device == device
      ensures this.delivers == delivers && this.answers == answers && this.cancels == cancels
    {
      this.profile, this.delivers, this.answers, this.cancels, this.device := profile, delivers, answers, cancels, device;
      clock, sent, produced, taken, begun, wiped, acked, log, trace := 0, [], [], 0, false, false, 0, [], [];
      exchanges, accepted := [], [];
    }

    /** Each message arrives once and intact, reads return the replies in order, and nobody cancels. */
    ghost predicate Reliable() {
      && (forall t :: delivers(t) == [Newest(Intact)])
      && (forall t :: answers(t) == OldestUnread)
      && (forall t :: !cancels(t))
    }

    /** Messages arrive intact or are lost, replies are read in order or are lost, and nobody cancels. */
    ghost predicate Lossy() {
      && (forall t :: delivers(t) == [] || delivers(t) == [Newest(Intact)])
      && (forall t :: answers(t) == OldestUnread || answers(t) == Missed)
      && (forall t :: !cancels(t))
    }

    /** An attempt that starts at `t` gets its message to the device and its answer back. */
    ghost predicate Through(t: nat) {
      delivers(t + 1) == [Newest(Intact)] && answers(t + 2) == OldestUnread
    }

    ghost predicate AttemptThrough(t: nat, k: nat) {
      Through(t + 3 * k)
    }

    /** No attempt of an exchange that starts at `t` gets through. */
    ghost predicate Starved(t: nat, retries: nat) {
      forall k :: 0 <= k <= retries ==> !AttemptThrough(t, k)
    }

    /** No exchange from the `n`-th on was starved. */
    ghost predicate WellServed(n: nat, retries: nat)
      reads this
    {
      forall i :: n <= i < |exchanges| ==> !Starved(exchanges[i], retries)
    }

    /** The handshake that starts at `t` gets through. */
    ghost predicate Greeted(t: nat) {
      delivers(t + 1) == [Newest(Intact)] && answers(t + 2) == OldestUnread && answers(t + 3) == OldestUnread
    }

    /** The begin command never arrives after the handshake. */
    ghost predicate CommandOnTime() {
      forall t, i :: 0 <= i < |delivers(t)| ==> !delivers(t)[i].Command?
    }

    /** Before anything is sent. */
    ghost predicate Idle()
      reads this
    {
      && sent == [] && produced == [] && taken == 0 && !begun && !wiped && acked == 0 && log == [] && trace == []
      && exchanges == [] && accepted == []
    }

    ghost function Now(): Snapshot
      reads this
    {
      Snapshot(device, acked, begun, wiped)
    }

    /** The trace ends with the present. */
    ghost predicate Traced()
      reads this
    {
      trace != [] && trace[|trace| - 1] == Now()
    }

    /** The safety of an open session. */
    ghost predicate Safe(image: seq<byte>)
      reads this
    {
      && begun && Holds(device, image) && Traced() && SafeTrace(image)
      && (forall i :: 0 <= i < |sent| ==> Faithful(sent[i], image))
      && (CommandOnTime() ==> !wiped)
      && (!wiped ==> Sound(image))
    }

    ghost predicate Sound(image: seq<byte>)
      reads this
    {
      && acked <= |device.image|
      && (forall i :: 0 <= i < |sent| && IsCommit(sent[i]) ==> device.image == image)
      && (forall i :: 0 <= i < |produced| ==> Truthful(produced[i], device, image))
    }

    /** Every state that device and host have been in since the session begun. */
    ghost predicate SafeTrace(image: seq<byte>)
      reads this
    {
      forall i :: 0 <= i < |trace| ==> SafeAt(trace[i], image)
    }

    /** On a lossy link: nothing unread, and the device expects exactly `offset`. */
    ghost predicate InStep(offset: nat)
      reads this
    {
      Lossy() && taken == |produced| && device.nextOffset == offset
    }

    /** The host has accepted an acknowledgement up to `offset`. */
    ghost method Advance(offset: nat, image: seq<byte>)
      requires Safe(image) && (!wiped ==> offset <= |device.image|)
      modifies `acked, `trace
      ensures Safe(image) && acked == offset && trace == old(trace) + [Now()]
    {
      hide Decode, Faithful, IsCommit, Truthful, Link.CommandOnTime;
      acked := offset;
      trace := trace + [Now()];
    }

    /** One arrival of a frame. */
    method Arrive(data: seq<byte>, m: Damage, ghost image: seq<byte>)
      requires Safe(image) && Faithful(data, image) && (!wiped && IsCommit(data) ==> device.image == image)
      modifies `device, `produced, `trace
      ensures Safe(image) && old(produced) <= produced && trace == old(trace) + [Now()]
      ensures old(device).image <= device.image
      ensures m.Intact? ==>
                (device, produced) == var (d, rs) := WriteRaw(old(device), profile, data); (d, old(produced) + rs)
    {
      hide Decode, Crc32.Crc, Damaged, WriteRaw, Faithful, IsCommit, Link.CommandOnTime;
      DeliveryKeeps(device, profile, data, m, image);
      DecodeNonEmpty(data, image);
      IntactIsWhole(data);
      var (d, rs) := WriteRaw(device, profile, Damaged(data, m));
      if !wiped {
        forall i | 0 <= i < |produced| ensures Truthful(produced[i], d, image) {
          TruthfulLater(produced[i], device, d, image);
        }
      }
      device, produced := d, produced + rs;
      trace := trace + [Now()];
    }

    /** The begin command arrives once more: harmless while the device holds nothing. */
    method ArriveCommand(m: Damage, ghost image: seq<byte>)
      requires Safe(image) && !CommandOnTime()
      modifies `device, `produced, `trace, `wiped
      ensures Safe(image) && old(produced) <= produced && trace == old(trace) + [Now()]
      ensures wiped <==> old(wiped) || (IsBeginCommand(Damaged(BEGIN_COMMAND, m)) && old(device).image != [])
    {
      hide Decode, Crc32.Crc, Damaged, WriteRaw, Faithful, IsCommit, IsBeginCommand, Link.CommandOnTime;
      CommandDelivery(device, profile, m);
      CommandReplies(device, profile, m);
      var data := Damaged(BEGIN_COMMAND, m);
      var (d, rs) := WriteRaw(device, profile, data);
      wiped := wiped || (IsBeginCommand(data) && device.image != []);
      if !wiped {
        forall i | 0 <= i < |produced| ensures Truthful(produced[i], d, image) {
          TruthfulLater(produced[i], device, d, image);
        }
      }
      device, produced := d, produced + rs;
      trace := trace + [Now()];
    }

    /** One delivery, if it names something that was sent. */
    method Deliver(d: Delivery, ghost image: seq<byte>)
      requires Safe(image) && sent != [] && (d.Command? ==> !CommandOnTime())
      modifies `device, `produced, `trace, `wiped
      ensures Safe(image) && old(produced) <= produced
      ensures trace == old(trace) + if Reaches(d, |sent|) then [Now()] else []
      ensures d == Newest(Intact) ==>
                (device, produced) ==
                  var (d, rs) := WriteRaw(old(device), profile, sent[|sent| - 1]); (d, old(produced) + rs)
    {
      hide Decode, Faithful, IsCommit, WriteRaw, Truthful, Holds, Link.CommandOnTime;
      match d {
        case Newest(m) => Arrive(sent[|sent| - 1], m, image);
        case Earlier(index, m) => if index < |sent| { Arrive(sent[index], m, image); }
        case Command(m) => ArriveCommand(m, image);
      }
    }

    /** Sending one frame of an open session; anything sent earlier may arrive with it or instead. */
    method Send(data: seq<byte>, ghost frame: UploadFrame, ghost image: seq<byte>)
      requires Encode(frame) == Ok(data)
      requires Safe(image) && Faithful(data, image) && (frame.frameType.Commit? ==> acked == |image|)
      modifies `clock, `device, `sent, `produced, `log, `trace, `wiped
      ensures Safe(image) && log == old(log) + [Sent(frame, acked)] && old(produced) <= produced && old(trace) <= trace
      ensures sent == old(sent) + [data]
      ensures |trace| == |old(trace)| + Arrivals(delivers(old(clock)), |sent|) && clock == old(clock) + 1
      ensures delivers(old(clock)) == [] ==> device == old(device) && produced == old(produced)
      ensures delivers(old(clock)) == [Newest(Intact)] ==>
                (device, produced) == var (d, rs) := HandleFrame(old(device), profile, frame); (d, old(produced) + rs)
    {
      hide Decode, Encode, Crc32.Crc, Faithful, WriteRaw, HandleFrame, Holds, Truthful, IsCommit, Arrivals;
      CommitDecodes(data, frame);
      WriteFrame(device, profile, data, frame);
      Queue(data, frame, image);
      var arrivals := delivers(clock);
      clock := clock + 1;
      var i := 0;
      NoArrivals(|sent|);
      assert arrivals[..0] == [];
      while i < |arrivals|
        invariant i <= |arrivals| && Safe(image) && old(produced) <= produced && old(trace) <= trace
        invariant clock == old(clock) + 1
        invariant sent == old(sent) + [data] && log == old(log) + [Sent(frame, acked)]
        invariant |trace| == |old(trace)| + Arrivals(arrivals[..i], |sent|)
        invariant i == 0 ==> device == old(device) && produced == old(produced)
        invariant arrivals == [Newest(Intact)] && i == 1 ==>
                    (device, produced) == var (d, rs) := HandleFrame(old(device), profile, frame); (d, old(produced) + rs)
      {
        ArrivalsStep(arrivals, i, |sent|);
        Deliver(arrivals[i], image);
        i := i + 1;
      }
      assert arrivals[..i] == arrivals;
    }

    /** One more frame that may arrive. */
    method Queue(data: seq<byte>, ghost frame: UploadFrame, ghost image: seq<byte>)
      requires Decode(data) == Ok(frame)
      requires Safe(image) && Faithful(data, image) && (frame.frameType.Commit? ==> acked == |image|)
      modifies `sent, `log
      ensures Safe(image) && sent == old(sent) + [data] && log == old(log) + [Sent(frame, acked)]
    {
      hide Decode, Faithful, Truthful, Link.CommandOnTime;
      sent, log := sent + [data], log + [Sent(frame, acked)];
    }

    /** Sending a frame outside an open session: only a cancellation ahead of the handshake. */
    method SendIdle(data: seq<byte>, ghost frame: UploadFrame)
      requires data != [] && sent == [] && !begun
      modifies `clock, `device, `sent, `produced, `log
      ensures sent == [data] && log == old(log) + [Sent(frame, acked)]
    {
      sent, log := [data], log + [Sent(frame, acked)];
      var arrivals := delivers(clock);
      clock := clock + 1;
      var i := 0;
      while i < |arrivals|
        invariant sent == [data] && log == old(log) + [Sent(frame, acked)]
      {
        var (d, rs) := WriteRaw(device, profile, Damaged(data, arrivals[i].damage));
        device, produced := d, produced + rs;
        i := i + 1;
      }
    }

    /** While the begin command is under way: the session opens with its first arrival. */
    ghost predicate Opening(image: seq<byte>)
      reads this
    {
      && sent == [] && acked == 0 && !wiped && SafeTrace(image) && (trace != [] ==> Traced())
      && (if begun then device.image == [] && Safe(image) else forall i :: 0 <= i < |produced| ==> produced[i].Nack?)
      && (forall i :: 0 <= i < |produced| ==>
            produced[i].Nack? || produced[i].OkLine? || produced[i] == Ready(profile.maxImage, profile.chunk))
    }

    /** One arrival of the begin command during the handshake. */
    method Open(m: Damage, ghost image: seq<byte>)
      requires Opening(image)
      modifies `device, `produced, `begun, `trace
      ensures Opening(image) && trace == old(trace) + [Now()]
      ensures m.Intact? ==>
                begun && device == Device(true, 0, [])
                && produced == old(produced) + [Ready(profile.maxImage, profile.chunk), OkLine]
    {
      hide Decode, Crc32.Crc, Damaged, IsBeginCommand, WriteRaw, Link.CommandOnTime;
      CommandIntact();
      CommandDelivery(device, profile, m);
      CommandReplies(device, profile, m);
      var data := Damaged(BEGIN_COMMAND, m);
      var (d, rs) := WriteRaw(device, profile, data);
      begun := begun || IsBeginCommand(data);
      device, produced := d, produced + rs;
      trace := trace + [Now()];
    }

    /** Sending the begin command: it may be lost, repeated or damaged. */
    method SendCommand(ghost image: seq<byte>)
      requires Idle()
      modifies `clock, `device, `produced, `begun, `trace
      ensures Opening(image) && |trace| == |delivers(old(clock))| && clock == old(clock) + 1
      ensures delivers(old(clock)) == [Newest(Intact)] ==>
                begun && device == Device(true, 0, []) && produced == [Ready(profile.maxImage, profile.chunk), OkLine]
    {
      hide Damaged, IsBeginCommand, WriteRaw, Link.Safe;
      var arrivals := delivers(clock);
      clock := clock + 1;
      var i := 0;
      while i < |arrivals|
        invariant i <= |arrivals| && Opening(image) && |trace| == i && (i == 0 ==> produced == [])
        invariant clock == old(clock) + 1
        invariant arrivals == [Newest(Intact)] && i == 1 ==>
                    begun && device == Device(true, 0, []) && produced == [Ready(profile.maxImage, profile.chunk), OkLine]
      {
        Open(arrivals[i].damage, image);
        i := i + 1;
      }
    }

    /** Whether the user has asked to stop by now. */
    method CancelRequested() returns (requested: bool)
      modifies `clock
      ensures requested == cancels(old(clock)) && clock == old(clock) + 1
      ensures forall image :: old(Safe(image)) ==> Safe(image)
    {
      requested := cancels(clock);
      clock := clock + 1;
    }

    /** A read times out or returns any reply of this session. */
    method ReadLine() returns (reply: Option<Reply>)
      modifies `clock, `taken
      ensures reply.Some? ==> reply.value in produced
      ensures forall image :: old(Safe(image)) ==> Safe(image)
      ensures clock == old(clock) + 1
      ensures answers(old(clock)).OldestUnread? ==>
                if old(taken) < |produced| then reply == Some(produced[old(taken)]) && taken == old(taken) + 1
                else reply == None && taken == old(taken)
      ensures answers(old(clock)).Missed? ==> reply == None && taken == |produced|
    {
      var reading := answers(clock);
      clock := clock + 1;
      reply := None;
      if reading.OldestUnread? && taken < |produced| {
        reply := Some(produced[taken]);
        taken := taken + 1;
      } else if reading.AnyReply? && reading.index < |produced| {
        reply := Some(produced[reading.index]);
      } else if reading.Missed? {
        taken := |produced|;
      }
    }

    /** An exchange starts. */
    ghost method Enter()
      modifies `exchanges
      ensures exchanges == old(exchanges) + [clock]
      ensures forall image :: old(Safe(image)) ==> Safe(image)
    {
      exchanges := exchanges + [clock];
    }

    /** The host has accepted an answer. */
    ghost method Note(response: Response)
      modifies `accepted
      ensures accepted == old(accepted) + [response]
      ensures forall image :: old(Safe(image)) ==> Safe(image)
    {
      accepted := accepted + [response];
    }
  }

  /** The device holds a front of the image, which reaches at least to the host's offset unless it was wiped. */
  predicate SafeAt(s: Snapshot, image: seq<byte>) {
    s.begun ==> s.device.image <= image && (!s.wiped ==> s.acked <= |s.device.image|)
  }

  lemma NoArrivals(sent: nat)
    ensures Arrivals([], sent) == 0
  {}

  lemma DecodeNonEmpty(data: seq<byte>, image: seq<byte>)
    requires Faithful(data, image)
    ensures data != []
  {}

  lemma IntactIsWhole(data: seq<byte>)
    requires data != []
    ensures Damaged(data, Intact) == data
  {}

  lemma CommandIntact()
    ensures Damaged(BEGIN_COMMAND, Intact) == BEGIN_COMMAND && IsBeginCommand(BEGIN_COMMAND)
  {}

  /** An intact frame reaches the frame handler. */
  lemma WriteFrame(d: Device, p: Profile, data: seq<byte>, frame: UploadFrame)
    requires Decode(data) == Ok(frame)
    ensures WriteRaw(d, p, data) == HandleFrame(d, p, frame)
  {
    if IsBeginCommand(data) { BeginCommandBytes(data); }
    DecodeStarts(data);
    hide Decode;
  }

  lemma DecodeStarts(data: seq<byte>)
    requires Decode(data).Ok?
    ensures data[0] == FRAME_MAGIC[0]
  {
    assert data[..4][0] == data[0];
  }

  lemma CommitDecodes(data: seq<byte>, frame: UploadFrame)
    requires Encode(frame) == Ok(data)
    ensures Decode(data) == Ok(frame)
  {
    hide Decode, Crc32.Seal;
    DecodeEncode(frame);
  }

  lemma CommandReplies(d: Device, p: Profile, m: Damage)
    ensures var rs := WriteRaw(d, p, Damaged(BEGIN_COMMAND, m)).1;
            if IsBeginCommand(Damaged(BEGIN_COMMAND, m)) then rs == [Ready(p.maxImage, p.chunk), OkLine]
            else rs == [Nack(FrameCrc, 0, d.nextOffset)]
  {}

  // ---- What a run sends ----

  function Chunk(image: seq<byte>, offset: nat, limit: nat): (c: seq<byte>)
    requires offset <= |image|
    ensures |c| <= limit && offset + |c| <= |image| && c == image[offset..offset + |c|]
    ensures offset < |image| && limit > 0 ==> |c| > 0
  {
    if offset + limit <= |image| then image[offset..offset + limit] else image[offset..]
  }

  /** A frame in its place: BEGIN first, DATA at the acknowledged offset, COMMIT once all is acknowledged. */
  predicate Orderly(e: Sent, package: seq<byte>, limit: nat)
    requires |package| >= BLOCK_SIZE
  {
    var f, image := e.frame, package[BLOCK_SIZE..];
    match f.frameType
    case Begin => f == UploadFrame(Begin, 0, 0, package[..BEGIN_PAYLOAD_SIZE]) && e.acked == 0
    case Data => e.acked < |image| && f.offset == e.acked && 1 <= f.sequence <= e.acked + 1
                 && f.payload == Chunk(image, e.acked, limit)
    case Commit => f.offset == e.acked == |image| && 1 <= f.sequence <= |image| + 1 && f.payload == []
    case Cancel => false
  }

  function Rank(t: FrameType): nat {
    match t case Begin => 0 case Data => 1 case Commit => 2 case Cancel => 3
  }

  /** How far the image is acknowledged once this frame is. */
  function Reach(e: Sent): nat {
    e.acked + if e.frame.frameType.Data? then |e.frame.payload| else 0
  }

  /** Behind `x` comes the same frame again, or a later stage with a higher number and all of `x` acknowledged. */
  predicate Follows(x: Sent, y: Sent) {
    x == y || (x.frame.sequence < y.frame.sequence && Rank(x.frame.frameType) <= Rank(y.frame.frameType)
               && Reach(x) <= y.acked)
  }

  /** A CANCEL that names the acknowledged offset and a number no older than any before it. */
  predicate Closes(e: Sent, log: seq<Sent>) {
    && e.frame == UploadFrame(Cancel, e.frame.sequence, e.acked, []) && 0 <= e.frame.sequence <= e.acked + 1
    && forall i :: 0 <= i < |log| ==> log[i].frame.sequence <= e.frame.sequence && log[i].acked <= e.acked
  }

  /** Every frame in its place and behind those sent before; a cancelled run ends with its only CANCEL. */
  predicate OrderlyRun(log: seq<Sent>, package: seq<byte>, limit: nat, cancelled: bool)
    requires |package| >= BLOCK_SIZE
  {
    if cancelled then
      |log| > 0 && OrderlyRun(log[..|log| - 1], package, limit, false) && Closes(log[|log| - 1], log[..|log| - 1])
    else
      && (forall i :: 0 <= i < |log| ==> Orderly(log[i], package, limit))
      && (forall i, j :: 0 <= i < j < |log| ==> Follows(log[i], log[j]))
  }

  /** All frames sent are older than `sequence`, no COMMIT, and their bytes end by `offset`. */
  predicate Behind(log: seq<Sent>, sequence: int, offset: nat) {
    forall i :: 0 <= i < |log| ==>
      log[i].frame.sequence < sequence && Rank(log[i].frame.frameType) <= 1 && Reach(log[i]) <= offset
  }

  /** DATA rounds for `n` remaining bytes. */
  function Rounds(n: nat, limit: nat): nat
    requires limit > 0
    decreases n
  {
    if n == 0 then 0 else if n <= limit then 1 else 1 + Rounds(n - limit, limit)
  }

  /** The most DATA frames that `n` remaining bytes can take. */
  function Sends(retries: nat, n: nat, limit: nat): nat
    requires limit > 0
  {
    (retries + 1) * Rounds(n, limit)
  }

  lemma {:induction false} RoundsIsCeiling(n: nat, limit: nat)
    requires limit > 0
    ensures n <= Rounds(n, limit) * limit && (n > 0 ==> (Rounds(n, limit) - 1) * limit < n)
    decreases n
  {
    if n > limit {
      RoundsIsCeiling(n - limit, limit);
      var r := Rounds(n - limit, limit);
      assert Rounds(n, limit) == r + 1 && (r + 1) * limit == r * limit + limit && r * limit == (r - 1) * limit + limit;
    }
  }

  function PayloadLimit(chunk: int): int {
    if chunk != 0 then (if chunk < FRAME_MAX_PAYLOAD then chunk else FRAME_MAX_PAYLOAD) else FRAME_MAX_PAYLOAD
  }

  /** The payload limit is what the device advertises, at most 512; 512 if it advertises none. */
  lemma PayloadLimitIs(chunk: int)
    ensures PayloadLimit(chunk) == if chunk == 0 || chunk > 512 then 512 else chunk
  {}

  // ---- The uploader ----

  datatype Failure =
    | BadPackage(error: PackageError) | WrongTarget | NoAnswer | NotReady | IncompleteHandshake | TooLarge | BadChunk
    | BadReply | Rejected(code: Code) | Timeout | WrongOffset | NotStaged

  datatype Outcome = Success(stagedCrc: nat, manifest: Manifest) | Failed(reason: Failure) | Cancelled

  predicate ExchangeFailure(f: Failure) {
    f.BadReply? || f.Rejected? || f.Timeout?
  }

  predicate TransferFailure(f: Failure) {
    ExchangeFailure(f) || f.WrongOffset? || f.NotStaged?
  }

  datatype Response = Response(acknowledged: bool, sequence: int, next: int, code: Option<Code>, stagedCrc: Option<nat>)

  function ParseResponse(r: Reply): Option<Response> {
    match r
    case Ack(sequence, next) => Some(Response(true, sequence, next, None, None))
    case Nack(code, sequence, next) => Some(Response(false, sequence, next, Some(code), None))
    case Staged(crc) => Some(Response(true, 0, 0, None, Some(crc)))
    case Ready(_, _) => None
    case OkLine => None
  }

  predicate Accepts(r: Reply) {
    ParseResponse(r).Some? && ParseResponse(r).value.acknowledged
  }

  datatype Answer = Answered(response: Response) | Stopped(reason: Failure) | Interrupted

  /** A read that makes the host send the frame again: nothing, or a refusal that asks for this very offset. */
  predicate Retryable(read: Option<Reply>, offset: int) {
    read.None? || (read.value.Nack? && read.value.code == Offset && read.value.next == offset)
  }

  /** The lines heard in an exchange of at most `most` attempts decide its answer. */
  predicate Decides(heard: seq<Option<Reply>>, answer: Answer, offset: int, most: nat) {
    && |heard| <= most
    && (forall i :: 0 <= i < |heard| - 1 ==> Retryable(heard[i], offset))
    && if answer.Interrupted? then
         |heard| < most && (heard != [] ==> Retryable(heard[|heard| - 1], offset))
       else
         && heard != []
         && var last := heard[|heard| - 1];
            if Retryable(last, offset) then |heard| == most && answer == Stopped(Timeout)
            else
              match last.value
              case Ack(sequence, next) => answer == Answered(Response(true, sequence, next, None, None))
              case Staged(crc) => answer == Answered(Response(true, 0, 0, None, Some(crc)))
              case Nack(code, _, _) => answer == Stopped(Rejected(code))
              case _ => answer == Stopped(BadReply)
  }

  lemma StillDeciding(heard: seq<Option<Reply>>, offset: int, most: nat)
    requires |heard| <= most && most > 0 && forall i :: 0 <= i < |heard| ==> Retryable(heard[i], offset)
    ensures |heard| < most ==> Decides(heard, Interrupted, offset, most)
    ensures |heard| == most ==> Decides(heard, Stopped(Timeout), offset, most)
  {}

  /** What a line that is no reason to send again makes of an exchange. */
  function Verdict(r: Reply): Answer {
    var response := ParseResponse(r);
    if response.None? then Stopped(BadReply)
    else if response.value.acknowledged then Answered(response.value)
    else Stopped(Rejected(response.value.code.value))
  }

  lemma VerdictOf(r: Reply)
    ensures !Verdict(r).Interrupted?
    ensures Verdict(r).Answered? <==> Accepts(r)
    ensures Verdict(r).Answered? ==> ParseResponse(r) == Some(Verdict(r).response) && Verdict(r).response.acknowledged
    ensures Verdict(r).Stopped? ==> ExchangeFailure(Verdict(r).reason)
  {}

  lemma NoneRetryable(offset: int)
    ensures Retryable(None, offset)
  {}

  lemma AcceptedNotRetryable(r: Reply, offset: int)
    ensures Accepts(r) ==> !Retryable(Some(r), offset)
  {}

  lemma Decided(heard: seq<Option<Reply>>, last: Reply, offset: int, most: nat)
    requires 0 < |heard| <= most && heard[|heard| - 1] == Some(last) && !Retryable(Some(last), offset)
    requires forall i :: 0 <= i < |heard| - 1 ==> Retryable(heard[i], offset)
    ensures Decides(heard, Verdict(last), offset, most)
  {}

  /** The lines heard in a handshake decide it: READY with its limits, then OK. */
  predicate Greets(heard: seq<Option<Reply>>, ready: Option<(int, int)>, failure: Option<Failure>) {
    match |heard|
    case 0 => ready.None? && failure.None?
    case 1 => ready.None? && failure == Some(if heard[0].None? then NoAnswer else NotReady)
              && (heard[0].Some? ==> !heard[0].value.Ready?)
    case 2 =>
      && heard[0].Some? && heard[0].value.Ready?
      && (if heard[1] == Some(OkLine) then
            ready == Some((heard[0].value.maxImage, heard[0].value.chunk)) && failure.None?
          else ready.None? && failure == Some(IncompleteHandshake))
    case _ => false
  }

  /** A frame that the device accepts, and answers the same way when it arrives again. */
  predicate Idempotent(d: Device, p: Profile, f: UploadFrame) {
    var (d', rs) := HandleFrame(d, p, f);
    rs != [] && Accepts(rs[0]) && HandleFrame(d', p, f) == (d', rs)
  }

  /** BEGIN, COMMIT and DATA at the device's offset are accepted, however often they arrive. */
  lemma RepeatsAnswered(d: Device, p: Profile, f: UploadFrame)
    requires !f.frameType.Cancel? && (f.frameType.Data? ==> f.offset == d.nextOffset && f.payload != [])
    ensures Idempotent(d, p, f)
    ensures var (d', rs) := HandleFrame(d, p, f);
            match f.frameType
            case Begin => d' == d && rs == [Ack(0, 0)]
            case Data => d'.nextOffset == f.offset + |f.payload| && rs == [Ack(f.sequence, f.offset + |f.payload|)]
            case Commit => rs == [Staged(Crc32.Crc(d.image)), OkLine]
            case Cancel => true
  {
    hide Crc32.Crc;
  }

  /**
   * DATA that the device already holds, and CANCEL, leave its image unchanged and are acknowledged with
   * what it holds; so is DATA ahead of it, except that a strict device asks for its own offset.
   */
  lemma HeldDataAcknowledged(d: Device, p: Profile, f: UploadFrame, image: seq<byte>)
    requires Holds(d, image) && (f.frameType.Cancel? || (f.frameType.Data? && f.offset != |d.image|))
    ensures var (d', rs) := HandleFrame(d, p, f);
            && d'.image == d.image && Holds(d', image) && d'.active == (d.active && f.frameType.Data?)
            && rs == [if f.frameType.Data? && p.strict && f.offset > |d.image| then Nack(Offset, f.sequence, |d.image|)
                      else Ack(f.sequence, |d.image|)]
  {}

  /**
   * Why lost answers are harmless and late ones are not: a frame that was sent again is answered
   * twice, and the second answer, heard by the next round, does not acknowledge that round.
   */
  lemma LateAnswerDerails(d: Device, p: Profile, f: UploadFrame, next: UploadFrame)
    requires f.frameType.Data? && f.offset == d.nextOffset && f.payload != []
    requires next.frameType.Data? && next.offset == f.offset + |f.payload| && next.payload != []
    ensures var (d1, first) := HandleFrame(d, p, f);
            var (d2, second) := HandleFrame(d1, p, f);
            && d2 == d1 && second == first && |second| == 1
            && !Retryable(Some(second[0]), next.offset)
            && Verdict(second[0]).Answered? && Verdict(second[0]).response.next != next.offset + |next.payload|
  {
    hide Crc32.Crc;
  }

  /** The CANCEL that ends the exchange of `e`. */
  function Cancelling(e: Sent): Sent {
    Sent(UploadFrame(Cancel, e.frame.sequence, e.frame.offset, []), e.acked)
  }

  /** `log` grew by at most `n` copies of one frame and, if interrupted, one CANCEL. */
  predicate Grew(was: seq<Sent>, log: seq<Sent>, e: Sent, n: nat, interrupted: bool) {
    && |was| <= |log| <= |was| + n + (if interrupted then 1 else 0)
    && was <= log
    && (interrupted ==> |was| < |log| && log[|log| - 1] == Cancelling(e))
    && forall i :: |was| <= i < |log| - (if interrupted then 1 else 0) ==> log[i] == e
  }

  lemma GrewOrderly(was: seq<Sent>, log: seq<Sent>, e: Sent, n: nat, interrupted: bool, package: seq<byte>, limit: nat)
    requires |package| >= BLOCK_SIZE && Grew(was, log, e, n, interrupted)
    requires OrderlyRun(was, package, limit, false) && Orderly(e, package, limit)
    requires was == [] || (Rank(e.frame.frameType) >= 1 && Behind(was, e.frame.sequence, e.acked))
    ensures OrderlyRun(log, package, limit, interrupted)
  {
    hide Orderly;
    var body := if interrupted then log[..|log| - 1] else log;
    assert forall i :: 0 <= i < |was| ==> body[i] == was[i];
    assert forall i :: |was| <= i < |body| ==> body[i] == e;
    assert forall i :: 0 <= i < |was| ==> Follows(was[i], e);
    assert OrderlyRun(body, package, limit, false);
    OrderlyBounds(e, package, limit);
  }

  lemma OrderlyBounds(e: Sent, package: seq<byte>, limit: nat)
    requires |package| >= BLOCK_SIZE && Orderly(e, package, limit)
    ensures e.frame.offset == e.acked && 0 <= e.frame.sequence <= e.acked + 1
  {}

  lemma GrewNothing(was: seq<Sent>, e: Sent)
    ensures Grew(was, was, e, 0, false)
  {}

  lemma GrewOne(was: seq<Sent>, log: seq<Sent>, e: Sent, n: nat)
    requires Grew(was, log, e, n, false)
    ensures Grew(was, log + [e], e, n + 1, false)
  {}

  lemma GrewStops(was: seq<Sent>, log: seq<Sent>, log': seq<Sent>, e: Sent, n: nat, most: nat, interrupted: bool)
    requires Grew(was, log, e, n, false) && n <= most && log <= log'
    requires if interrupted then |log'| == |log| + 1 && log'[|log|] == Cancelling(e) else log' == log
    ensures Grew(was, log', e, most, interrupted)
  {}

  /** `attempt` attempts to send `e` have each been no reason to stop. */
  predicate Trying(was: seq<Sent>, log: seq<Sent>, e: Sent, heard: seq<Option<Reply>>, attempt: nat) {
    && Grew(was, log, e, attempt, false) && |heard| == attempt && |log| == |was| + attempt
    && forall i :: 0 <= i < |heard| ==> Retryable(heard[i], e.frame.offset)
  }

  lemma TryingNothing(was: seq<Sent>, e: Sent)
    ensures Trying(was, was, e, [], 0)
  {}

  /** One more attempt: interrupted, without result, or with an answer. */
  lemma TryingEnds(was: seq<Sent>, log: seq<Sent>, log': seq<Sent>, e: Sent, heard: seq<Option<Reply>>, attempt: nat,
                   most: nat, answer: Option<Answer>, reply: Option<Reply>)
    requires Trying(was, log, e, heard, attempt) && attempt < most
    requires if answer == Some(Interrupted) then
               |log'| == |log| + 1 && log <= log' && log'[|log|] == Cancelling(e)
             else log' == log + [e] && answer == if Retryable(reply, e.frame.offset) then None else Some(Verdict(reply.value))
    ensures answer.None? ==> Trying(was, log', e, heard + [reply], attempt + 1)
    ensures answer.Some? ==>
              var all := if answer == Some(Interrupted) then heard else heard + [reply];
              && Grew(was, log', e, most, answer.value.Interrupted?) && Decides(all, answer.value, e.frame.offset, most)
              && |log'| == |was| + |all| + (if answer.value.Interrupted? then 1 else 0)
    ensures answer.Some? && answer != Some(Interrupted) ==> reply.Some? && answer.value == Verdict(reply.value)
  {
    hide Grew, Decides, Verdict, Retryable;
    NoneRetryable(e.frame.offset);
    if answer == Some(Interrupted) {
      GrewStops(was, log, log', e, attempt, most, true);
      StillDeciding(heard, e.frame.offset, most);
    } else {
      GrewOne(was, log, e, attempt);
      GrewStops(was, log', log', e, attempt + 1, most, false);
      if answer.Some? {
        VerdictOf(reply.value);
        Decided(heard + [reply], reply.value, e.frame.offset, most);
      }
    }
  }

  lemma TryingFails(was: seq<Sent>, log: seq<Sent>, e: Sent, heard: seq<Option<Reply>>, most: nat)
    requires Trying(was, log, e, heard, most) && most > 0
    ensures Grew(was, log, e, most, false) && |log| == |was| + |heard| && Decides(heard, Stopped(Timeout), e.frame.offset, most)
    ensures ExchangeFailure(Timeout)
  {
    StillDeciding(heard, e.frame.offset, most);
  }

  lemma GrewBehind(was: seq<Sent>, log: seq<Sent>, e: Sent, n: nat, sequence: int, offset: nat)
    requires Grew(was, log, e, n, false) && Rank(e.frame.frameType) <= 1
    requires Behind(was, e.frame.sequence, e.acked) && e.frame.sequence < sequence && Reach(e) <= offset
    ensures Behind(log, sequence, offset)
  {
    assert forall i :: 0 <= i < |was| ==> log[i] == was[i];
  }

  /**
   * What one attempt does on a lossy link with nothing unread: the device handles the frame if it
   * arrives, and its first reply is heard exactly when the attempt gets through.
   */
  ghost predicate Served(link: Link, clock: nat, device: Device, produced: seq<Reply>, taken: nat, frame: UploadFrame,
                         answer: Option<Answer>, reply: Option<Reply>)
    reads link
  {
    var (d, rs) := HandleFrame(device, link.profile, frame);
    && answer != Some(Interrupted) && link.clock == clock + 3
    && (link.device == device || link.device == d)
    && (if link.Through(clock) && rs != [] then
          reply == Some(rs[0]) && link.device == d && link.produced == produced + rs && link.taken == taken + 1
        else reply.None? && link.taken == |link.produced|)
  }

  /** `attempt` attempts of an exchange that started at `start` have failed; nothing is unread. */
  ghost predicate Waiting(link: Link, start: nat, d: Device, frame: UploadFrame, attempt: nat)
    reads link
  {
    && link.Lossy() && Idempotent(d, link.profile, frame)
    && (link.device == d || link.device == HandleFrame(d, link.profile, frame).0)
    && link.taken == |link.produced| && link.clock == start + 3 * attempt
    && forall k :: 0 <= k < attempt ==> !link.AttemptThrough(start, k)
  }

  lemma NotServedYet(link: Link, start: nat, d: Device, frame: UploadFrame)
    requires link.Lossy() && Idempotent(d, link.profile, frame)
    requires link.device == d && link.taken == |link.produced| && link.clock == start
    ensures Waiting(link, start, d, frame, 0)
  {}

  lemma WaitingMeans(link: Link, start: nat, d: Device, frame: UploadFrame, attempt: nat)
    requires Waiting(link, start, d, frame, attempt)
    ensures link.Lossy() && link.taken == |link.produced| && link.clock == start + 3 * attempt
    ensures Idempotent(d, link.profile, frame)
    ensures link.device == d || link.device == HandleFrame(d, link.profile, frame).0
    ensures forall k :: 0 <= k < attempt ==> !link.AttemptThrough(start, k)
  {}

  lemma OneServed(link: Link, start: nat, d: Device, device: Device, produced: seq<Reply>, taken: nat, frame: UploadFrame,
                  attempt: nat, answer: Option<Answer>, reply: Option<Reply>)
    requires link.Lossy() && taken == |produced| && Idempotent(d, link.profile, frame)
    requires device == d || device == HandleFrame(d, link.profile, frame).0
    requires forall k :: 0 <= k < attempt ==> !link.AttemptThrough(start, k)
    requires Served(link, start + 3 * attempt, device, produced, taken, frame, answer, reply)
    ensures answer != Some(Interrupted) && (reply.None? ==> Waiting(link, start, d, frame, attempt + 1))
    ensures reply.Some? ==>
              var (d', rs) := HandleFrame(d, link.profile, frame);
              && link.AttemptThrough(start, attempt) && rs != [] && reply == Some(rs[0]) && Accepts(rs[0])
              && link.device == d' && |link.produced| == link.taken + |rs| - 1
  {
    hide HandleFrame;
  }

  lemma ThroughMeans(link: Link, start: nat, attempt: nat, retries: nat)
    requires link.AttemptThrough(start, attempt) && attempt <= retries
    ensures !link.Starved(start, retries)
  {}

  lemma NeverServed(link: Link, start: nat, d: Device, frame: UploadFrame, retries: nat)
    requires Waiting(link, start, d, frame, retries + 1)
    ensures link.Starved(start, retries)
  {}

  class Uploader {
    const maxRetries: nat

    constructor (maxRetries: nat)
      ensures this.maxRetries == maxRetries
    {
      this.maxRetries := maxRetries;
    }

    /** Ask for cancellation; if requested, send the CANCEL. */
    method CheckCancelled(link: Link, sequence: nat, offset: nat, ghost image: seq<byte>) returns (cancelled: bool)
      requires link.Safe(image) && sequence <= 0xFFFF_FFFF && offset <= 0xFFFF_FFFF
      modifies link`clock, link`device, link`wiped, link`sent, link`produced, link`log, link`trace
      ensures link.Safe(image) && old(link.trace) <= link.trace
      ensures cancelled == link.cancels(old(link.clock)) && (link.Lossy() ==> !cancelled)
      ensures !cancelled ==>
                link.device == old(link.device) && link.produced == old(link.produced) && link.clock == old(link.clock) + 1
      ensures if cancelled then
                link.log == old(link.log) + [Sent(UploadFrame(Cancel, sequence, offset, []), link.acked)]
              else link.log == old(link.log)
    {
      hide Decode, Encode, Faithful, Link.Safe;
      cancelled := link.CancelRequested();
      if cancelled {
        var f := UploadFrame(Cancel, sequence, offset, []);
        var encoded := Encode(f);
        ControlFaithful(f, image);
        link.Send(encoded.value, f, image);
      }
    }

    /** One attempt of an exchange: send the frame, read a line, and decide whether to go on. */
    method Attempt(link: Link, data: seq<byte>, frame: UploadFrame, ghost image: seq<byte>)
      returns (answer: Option<Answer>, reply: Option<Reply>)
      requires link.Safe(image) && InRange(frame) && Encode(frame) == Ok(data) && Faithful(data, image)
      requires frame.frameType.Commit? ==> link.acked == |image|
      modifies link`clock, link`device, link`wiped, link`sent, link`produced, link`log, link`trace, link`taken
      ensures link.Safe(image) && old(link.trace) <= link.trace
      ensures if answer == Some(Interrupted) then
                link.log == old(link.log) + [Cancelling(Sent(frame, link.acked))]
              else
                && link.log == old(link.log) + [Sent(frame, link.acked)]
                && answer == (if Retryable(reply, frame.offset) then None else Some(Verdict(reply.value)))
                && (reply.Some? ==> reply.value in link.produced)
      ensures link.Lossy() && old(link.taken) == |old(link.produced)| ==>
                Served(link, old(link.clock), old(link.device), old(link.produced), old(link.taken), frame, answer, reply)
    {
      hide Decode, Encode, Faithful, HandleFrame, Link.Safe;
      reply := None;
      var cancelled := CheckCancelled(link, frame.sequence, frame.offset, image);
      if cancelled {
        return Some(Interrupted), None;
      }
      link.Send(data, frame, image);
      reply := link.ReadLine();
      if reply.None? {
        return None, reply;
      }
      var response := ParseResponse(reply.value);
      if response.None? {
        return Some(Stopped(BadReply)), reply;
      }
      if response.value.acknowledged {
        return Some(Answered(response.value)), reply;
      }
      if response.value.code == Some(Offset) && response.value.next == frame.offset {
        return None, reply;
      }
      return Some(Stopped(Rejected(response.value.code.value))), reply;
    }

    /** The attempts of an exchange. */
    method Attempts(link: Link, frame: UploadFrame, ghost image: seq<byte>)
      returns (answer: Answer, ghost heard: seq<Option<Reply>>)
      requires link.Safe(image) && SenderRules(frame) && InRange(frame) && !frame.frameType.Cancel?
      requires Faithful(Encode(frame).value, image) && (frame.frameType.Commit? ==> link.acked == |image|)
      modifies link`clock, link`device, link`wiped, link`sent, link`produced, link`log, link`trace, link`taken
      ensures link.Safe(image) && old(link.trace) <= link.trace
      ensures Decides(heard, answer, frame.offset, maxRetries + 1)
      ensures |link.log| == |old(link.log)| + |heard| + (if answer.Interrupted? then 1 else 0)
      ensures Grew(old(link.log), link.log, Sent(frame, link.acked), maxRetries + 1, answer.Interrupted?)
      ensures answer.Stopped? ==> ExchangeFailure(answer.reason)
      ensures answer.Answered? ==>
                && answer.response.acknowledged
                && exists r :: r in link.produced && ParseResponse(r) == Some(answer.response)
      ensures link.Lossy() && old(link.taken) == |old(link.produced)|
              && Idempotent(old(link.device), link.profile, frame) ==>
                var (d, rs) := HandleFrame(old(link.device), link.profile, frame);
                if link.Starved(old(link.clock), maxRetries) then answer == Stopped(Timeout)
                else && answer == Answered(ParseResponse(rs[0]).value)
                     && link.device == d && |link.produced| == link.taken + |rs| - 1
    {
      hide Decode, Encode, Faithful, HandleFrame, Idempotent, Link.Safe, Link.Lossy, Link.Starved, Grew, Decides, Verdict,
        Retryable, Served, Waiting, Trying, SenderRules, InRange, ExchangeFailure;
      var encoded := Encode(frame);
      var attempt := 0;
      heard := [];
      ghost var was, e := link.log, Sent(frame, link.acked);
      ghost var start, d := link.clock, link.device;
      ghost var smooth := link.Lossy() && link.taken == |link.produced| && Idempotent(link.device, link.profile, frame);
      TryingNothing(was, e);
      if smooth { NotServedYet(link, start, d, frame); }
      while attempt < maxRetries + 1
        invariant attempt <= maxRetries + 1 && link.Safe(image) && old(link.trace) <= link.trace
        invariant Trying(was, link.log, e, heard, attempt)
        invariant smooth ==> Waiting(link, start, d, frame, attempt)
      {
        ghost var so := link.log;
        if smooth { WaitingMeans(link, start, d, frame, attempt); }
        ghost var device, produced, taken := link.device, link.produced, link.taken;
        var verdict, reply := Attempt(link, encoded.value, frame, image);
        if smooth { OneServed(link, start, d, device, produced, taken, frame, attempt, verdict, reply); }
        TryingEnds(was, so, link.log, e, heard, attempt, maxRetries + 1, verdict, reply);
        if verdict == Some(Interrupted) {
          return Interrupted, heard;
        }
        attempt := attempt + 1;
        heard := heard + [reply];
        if verdict.Some? {
          if smooth { ThroughMeans(link, start, attempt - 1, maxRetries); }
          VerdictOf(reply.value);
          return verdict.value, heard;
        }
        if smooth && reply.Some? { AcceptedNotRetryable(reply.value, frame.offset); }
      }
      if smooth { NeverServed(link, start, d, frame, maxRetries); }
      TryingFails(was, link.log, e, heard, maxRetries + 1);
      return Stopped(Timeout), heard;
    }

    /**
     * Send one frame until it is answered, at most `maxRetries + 1` times.  What was heard decides the
     * answer.  On a lossy link, an idempotent frame is answered exactly when some attempt gets through.
     */
    method Exchange(link: Link, frame: UploadFrame, ghost image: seq<byte>)
      returns (answer: Answer, ghost heard: seq<Option<Reply>>)
      requires link.Safe(image) && SenderRules(frame) && InRange(frame) && !frame.frameType.Cancel?
      requires Faithful(Encode(frame).value, image) && (frame.frameType.Commit? ==> link.acked == |image|)
      modifies link`clock, link`device, link`wiped, link`sent, link`produced, link`log, link`trace, link`taken,
        link`exchanges, link`accepted
      ensures link.Safe(image) && old(link.trace) <= link.trace
      ensures Decides(heard, answer, frame.offset, maxRetries + 1)
      ensures |link.log| == |old(link.log)| + |heard| + (if answer.Interrupted? then 1 else 0)
      ensures Grew(old(link.log), link.log, Sent(frame, link.acked), maxRetries + 1, answer.Interrupted?)
      ensures answer.Stopped? ==> ExchangeFailure(answer.reason)
      ensures answer.Answered? ==>
                && answer.response.acknowledged
                && exists r :: r in link.produced && ParseResponse(r) == Some(answer.response)
      ensures link.exchanges == old(link.exchanges) + [old(link.clock)]
      ensures link.accepted == old(link.accepted) + if answer.Answered? then [answer.response] else []
      ensures link.Lossy() && old(link.taken) == |old(link.produced)|
              && Idempotent(old(link.device), link.profile, frame) ==>
                var (d, rs) := HandleFrame(old(link.device), link.profile, frame);
                if link.Starved(old(link.clock), maxRetries) then answer == Stopped(Timeout)
                else && answer == Answered(ParseResponse(rs[0]).value)
                     && link.device == d && |link.produced| == link.taken + |rs| - 1
    {
      hide Decode, Encode, Faithful, HandleFrame, Idempotent, Link.Safe, Link.Lossy, Link.Starved, Grew, Decides,
        ExchangeFailure, SenderRules, InRange;
      link.Enter();
      answer, heard := Attempts(link, frame, image);
      if answer.Answered? {
        link.Note(answer.response);
      }
    }

    /** Announce the upload; a READY answer opens the session. */
    method Handshake(link: Link, ghost image: seq<byte>)
      returns (ready: Option<(int, int)>, failure: Option<Failure>, ghost heard: seq<Option<Reply>>)
      requires link.Idle()
      modifies link
      ensures !link.cancels(old(link.clock)) && link.Greeted(old(link.clock)) ==>
                ready.Some? && link.device == Device(true, 0, []) && link.taken == |link.produced|
      ensures link.exchanges == [] && link.accepted == []
      ensures Greets(heard, ready, failure)
      ensures link.acked == 0 && link.SafeTrace(image) && !link.wiped && (link.begun ==> link.Safe(image))
      ensures ready.Some? ==> link.begun && link.log == [] && failure.None?
      ensures ready.Some? ==> ready.value == (link.profile.maxImage, link.profile.chunk)
      ensures ready.None? ==> |link.log| == if failure.None? then 1 else 0
      ensures ready.None? && failure.None? ==> link.log == [Sent(UploadFrame(Cancel, 0, 0, []), 0)]
    {
      hide Decode, Holds, Truthful, IsCommit, Encode, Faithful, Crc32.Seal, Body;
      var cancelled := link.CancelRequested();
      if cancelled {
        var f := UploadFrame(Cancel, 0, 0, []);
        link.SendIdle(Crc32.Seal(Body(f)), f);
        return None, None, [];
      }
      link.SendCommand(image);
      var line := link.ReadLine();
      if line.None? {
        return None, Some(NoAnswer), [line];
      }
      if !line.value.Ready? {
        return None, Some(NotReady), [line];
      }
      var okLine := link.ReadLine();
      if okLine != Some(OkLine) {
        return None, Some(IncompleteHandshake), [line, okLine];
      }
      return Some((line.value.maxImage, line.value.chunk)), None, [line, okLine];
    }

    /** The DATA frame of the chunk at `offset`, sent until it is answered. */
    method SendChunk(link: Link, package: seq<byte>, limit: nat, sequence: nat, offset: nat) returns (a: Answer)
      requires Validate(package).Ok? && 0 < limit <= FRAME_MAX_PAYLOAD
      requires var image := package[BLOCK_SIZE..];
               link.Safe(image) && link.acked == offset < |image| && 1 <= sequence <= offset + 1
      requires OrderlyRun(link.log, package, limit, false) && Behind(link.log, sequence, offset)
      modifies link`clock, link`device, link`wiped, link`sent, link`produced, link`log, link`trace, link`taken,
        link`exchanges, link`accepted
      ensures link.Safe(package[BLOCK_SIZE..]) && OrderlyRun(link.log, package, limit, a.Interrupted?)
      ensures |link.log| <= |old(link.log)| + (maxRetries + 1) + (if a.Interrupted? then 1 else 0)
      ensures a.Stopped? ==> ExchangeFailure(a.reason)
      ensures a.Answered? ==>
                && a.response.acknowledged
                && (exists r :: r in link.produced && ParseResponse(r) == Some(a.response))
                && Behind(link.log, sequence + 1, offset + |Chunk(package[BLOCK_SIZE..], offset, limit)|)
      ensures link.exchanges == old(link.exchanges) + [old(link.clock)]
      ensures link.accepted == old(link.accepted) + if a.Answered? then [a.response] else []
      ensures old(link.InStep(offset)) ==>
                var next := offset + |Chunk(package[BLOCK_SIZE..], offset, limit)|;
                if link.Starved(old(link.clock), maxRetries) then a == Stopped(Timeout)
                else a.Answered? && a.response.next == next && link.InStep(next)
    {
      hide Decode, Encode, Faithful, Validate, Orderly, OrderlyRun, Grew, Behind, Link.Safe, HandleFrame, Idempotent,
        Link.Lossy, Link.Starved, Decides, ExchangeFailure;
      var image := package[BLOCK_SIZE..];
      ghost var was := link.log;
      ImageFits(package);
      var chunk := Chunk(image, offset, limit);
      var frame := UploadFrame(Data, sequence, offset, chunk);
      if link.InStep(offset) { RepeatsAnswered(link.device, link.profile, frame); }
      DataFaithful(frame, image);
      DataOrderly(frame, offset, package, limit);
      ghost var heard;
      a, heard := Exchange(link, frame, image);
      GrewOrderly(was, link.log, Sent(frame, offset), maxRetries + 1, a.Interrupted?, package, limit);
      GrewBound(was, link.log, Sent(frame, offset), maxRetries + 1, a.Interrupted?);
      if a.Answered? {
        GrewBehind(was, link.log, Sent(frame, offset), maxRetries + 1, sequence + 1, offset + |chunk|);
      }
    }

    /** One DATA round: the chunk at `offset`, acknowledged up to its end. */
    method SendRound(link: Link, package: seq<byte>, limit: nat, sequence: nat, offset: nat)
      returns (answer: Option<Answer>)
      requires Validate(package).Ok? && 0 < limit <= FRAME_MAX_PAYLOAD
      requires var image := package[BLOCK_SIZE..];
               link.Safe(image) && link.acked == offset < |image| && 1 <= sequence <= offset + 1
      requires OrderlyRun(link.log, package, limit, false) && Behind(link.log, sequence, offset)
      modifies link`clock, link`device, link`wiped, link`sent, link`produced, link`log, link`trace, link`acked, link`taken,
        link`exchanges, link`accepted
      ensures var image := package[BLOCK_SIZE..];
              && link.Safe(image)
              && link.acked == (if answer.None? then offset + |Chunk(image, offset, limit)| else offset)
              && OrderlyRun(link.log, package, limit, answer == Some(Interrupted))
      ensures answer.None? ==> Behind(link.log, sequence + 1, link.acked)
      ensures |link.log| <= |old(link.log)| + (maxRetries + 1) + (if answer == Some(Interrupted) then 1 else 0)
      ensures answer.Some? ==> !answer.value.Answered?
      ensures answer.Some? && answer.value.Stopped? ==> ExchangeFailure(answer.value.reason) || answer.value.reason.WrongOffset?
      ensures old(link.exchanges) <= link.exchanges && old(link.accepted) <= link.accepted
      ensures answer.None? || answer == Some(Stopped(WrongOffset)) ==>
                && |link.accepted| == |old(link.accepted)| + 1
                && (answer.None? <==> link.accepted[|old(link.accepted)|].next ==
                                        offset + |Chunk(package[BLOCK_SIZE..], offset, limit)|)
      ensures old(link.InStep(offset)) ==>
                && |link.exchanges| == |old(link.exchanges)| + 1 && old(link.exchanges) <= link.exchanges
                && (if link.Starved(link.exchanges[|old(link.exchanges)|], maxRetries) then answer == Some(Stopped(Timeout))
                    else answer.None? && link.InStep(link.acked))
    {
      hide Decode, Encode, Faithful, Validate, Orderly, OrderlyRun, Behind, Link.Safe, HandleFrame, Link.Lossy, Link.Starved,
        ExchangeFailure;
      var image := package[BLOCK_SIZE..];
      ghost var was := link.log;
      ImageFits(package);
      var cancelled := CheckCancelled(link, sequence, offset, image);
      if cancelled {
        BehindCloses(was, sequence, offset);
        InterruptedRun(was, link.log, package, limit);
        return Some(Interrupted);
      }
      var a := SendChunk(link, package, limit, sequence, offset);
      if !a.Answered? {
        OnlyExchangeFailures();
        return Some(a);
      }
      if a.response.next != offset + |Chunk(image, offset, limit)| {
        return Some(Stopped(WrongOffset));
      }
      AckTruthful(link, image, a.response);
      link.Advance(a.response.next, image);
      return None;
    }

    /** Stream the image; each round is acknowledged before the next one starts. */
    method SendData(link: Link, package: seq<byte>, limit: nat) returns (answer: Option<Answer>, sequence: nat)
      requires Validate(package).Ok? && 0 < limit <= FRAME_MAX_PAYLOAD
      requires link.Safe(package[BLOCK_SIZE..]) && link.acked == 0
      requires OrderlyRun(link.log, package, limit, false) && Behind(link.log, 1, 0)
      modifies link`clock, link`device, link`wiped, link`sent, link`produced, link`log, link`trace, link`acked, link`taken,
        link`exchanges, link`accepted
      ensures old(link.exchanges) <= link.exchanges && old(link.accepted) <= link.accepted
      ensures answer.Some? && answer.value.Stopped? ==> ExchangeFailure(answer.value.reason) || answer.value.reason.WrongOffset?
      ensures answer == Some(Stopped(WrongOffset)) ==> old(link.accepted) < link.accepted
      ensures old(link.InStep(0)) ==>
                if link.WellServed(|old(link.exchanges)|, maxRetries) then answer.None? && link.InStep(link.acked)
                else answer == Some(Stopped(Timeout))
      ensures var image := package[BLOCK_SIZE..];
              && link.Safe(image)
              && (answer.None? ==> link.acked == |image| && 1 <= sequence <= |image| + 1)
              && (answer.None? ==> Behind(link.log, sequence, |image|))
              && (answer.Some? ==> !answer.value.Answered?)
              && OrderlyRun(link.log, package, limit, answer == Some(Interrupted))
              && |link.log| <= |old(link.log)| + Sends(maxRetries, |image|, limit)
                               + (if answer == Some(Interrupted) then 1 else 0)
    {
      hide Validate, Orderly, Sends, OrderlyRun, Behind, Link.Safe, Link.Lossy, Link.Starved;
      var image := package[BLOCK_SIZE..];
      var offset: nat := 0;
      answer, sequence := None, 1;
      ImageFits(package);
      while offset < |image|
        invariant offset <= |image| && link.Safe(image) && link.acked == offset
        invariant old(link.exchanges) <= link.exchanges && old(link.accepted) <= link.accepted
        invariant old(link.InStep(0)) ==> link.InStep(offset) && link.WellServed(|old(link.exchanges)|, maxRetries)
        invariant 1 <= sequence <= offset + 1
        invariant OrderlyRun(link.log, package, limit, false) && Behind(link.log, sequence, offset)
        invariant |link.log| + Sends(maxRetries, |image| - offset, limit)
                  <= |old(link.log)| + Sends(maxRetries, |image|, limit)
        invariant answer.None?
      {
        ghost var n := |Chunk(image, offset, limit)|;
        RoundsStep(|image| - offset, n, limit, maxRetries);
        answer := SendRound(link, package, limit, sequence, offset);
        if answer.Some? {
          return;
        }
        offset := offset + |Chunk(image, offset, limit)|;
        sequence := (sequence + 1) % 0x1_0000_0000;
      }
    }

    /**
     * One whole upload.  Whatever the link does, the device never holds anything but a front of the
     * image, and the frames sent are in order and bounded in number.  As long as no begin command
     * resets a device that holds bytes, that front reaches at least to the host's offset, and success
     * means that the device holds the whole image and reported the CRC of the manifest.
     */
    method Upload(link: Link, package: seq<byte>, expectedTarget: seq<byte>) returns (r: Outcome)
      requires link.Idle()
      modifies link
      ensures link.Lossy() && link.Greeted(old(link.clock)) && Validate(package).Ok? && expectedTarget == TARGET_ID
              && Validate(package).value.imageSize <= link.profile.maxImage && PayloadLimit(link.profile.chunk) > 0
              ==> if link.WellServed(0, maxRetries) then r.Success? else r == Failed(Timeout)
      ensures link.Reliable() && Validate(package).Ok? && expectedTarget == TARGET_ID
              && Validate(package).value.imageSize <= link.profile.maxImage && PayloadLimit(link.profile.chunk) > 0
              ==> r.Success?
      ensures Validate(package).Ok? && expectedTarget != TARGET_ID ==> r == Failed(WrongTarget) && link.log == []
      ensures Validate(package).Ok? && (r.Success? || r == Failed(TooLarge)) ==>
                (r.Success? <==> |package| - 512 <= link.profile.maxImage)
      ensures r.Success? || r == Failed(BadChunk) ==> (r.Success? <==> link.profile.chunk >= 0)
      ensures link.CommandOnTime() ==> !link.wiped
      ensures Validate(package).Err? ==> r == Failed(BadPackage(Validate(package).error)) && link.log == []
      ensures Validate(package).Ok? ==>
                var image := package[BLOCK_SIZE..];
                var limit := if PayloadLimit(link.profile.chunk) > 0 then PayloadLimit(link.profile.chunk) else 1;
                && link.SafeTrace(image) && (link.begun ==> link.Traced())
                && (link.begun ==> Holds(link.device, image) && (!link.wiped ==> link.acked <= |link.device.image|))
                && (r.Success? ==> link.begun && r.manifest == Validate(package).value)
                && (r.Success? && !link.wiped ==>
                      link.device.image == image && r.stagedCrc == r.manifest.imageCrc == Crc32.Crc(image))
                && OrderlyRun(link.log, package, limit, r.Cancelled?)
                && |link.log| <= (maxRetries + 1) * (Rounds(|image|, limit) + 2) + (if r.Cancelled? then 1 else 0)
    {
      hide Decode, Holds, IsCommit, Truthful, Encode, Faithful, Validate, Rounds, Crc32.Crc, OrderlyRun;
      if link.Reliable() { ReliableServes(link, maxRetries); }
      var v := Validate(package);
      if v.Err? {
        return Failed(BadPackage(v.error));
      }
      ImageFits(package);
      var image := package[BLOCK_SIZE..];
      ghost var most := PayloadLimit(link.profile.chunk);
      NoFrames(maxRetries + 1, Rounds(|image|, if most > 0 then most else 1));
      EmptyRun(package, if most > 0 then most else 1);
      if v.value.targetId != expectedTarget {
        return Failed(WrongTarget);
      }
      var ready, failure, heard := Handshake(link, image);
      if ready.None? {
        if failure.Some? {
          return Failed(failure.value);
        }
        assert Closes(link.log[0], []);
        InterruptedRun([], link.log, package, if most > 0 then most else 1);
        return Cancelled;
      }
      var (maxImage, chunk) := ready.value;
      if |image| > maxImage {
        return Failed(TooLarge);
      }
      var limit := PayloadLimit(chunk);
      if limit <= 0 {
        return Failed(BadChunk);
      }
      r := Transfer(link, package, v.value, limit);
    }

    /** BEGIN, all DATA rounds and COMMIT of an open session. */
    method Transfer(link: Link, package: seq<byte>, manifest: Manifest, limit: nat) returns (r: Outcome)
      requires Validate(package) == Ok(manifest) && 0 < limit <= FRAME_MAX_PAYLOAD
      requires link.Safe(package[BLOCK_SIZE..]) && link.acked == 0 && link.log == []
      modifies link`clock, link`device, link`wiped, link`sent, link`produced, link`log, link`trace, link`acked, link`taken,
        link`exchanges, link`accepted
      ensures r.Failed? ==> TransferFailure(r.reason)
      ensures r.Success? ==> |link.accepted| > |old(link.accepted)| && link.accepted[|old(link.accepted)|].next == 0
      ensures r == Failed(WrongOffset) && |link.accepted| == |old(link.accepted)| + 1 ==>
                link.accepted[|old(link.accepted)|].next != 0
      ensures old(link.InStep(0)) && old(link.exchanges) == [] ==>
                if link.WellServed(0, maxRetries) then r.Success? else r == Failed(Timeout)
      ensures var image := package[BLOCK_SIZE..];
              && link.Safe(image)
              && (r.Success? ==> r.manifest == manifest)
              && (r.Success? && !link.wiped ==>
                    link.device.image == image && r.stagedCrc == manifest.imageCrc == Crc32.Crc(image))
              && OrderlyRun(link.log, package, limit, r.Cancelled?)
              && |link.log| <= (maxRetries + 1) * (Rounds(|image|, limit) + 2) + (if r.Cancelled? then 1 else 0)
    {
      hide Decode, Encode, Faithful, Validate, Orderly, Rounds, Crc32.Crc, OrderlyRun, Grew, Behind, Link.Safe;
      ImageFits(package);
      var image := package[BLOCK_SIZE..];
      Budget(maxRetries + 1, Rounds(|image|, limit));
      EmptyRun(package, limit);
      var begin := UploadFrame(Begin, 0, 0, package[..BEGIN_PAYLOAD_SIZE]);
      ControlFaithful(begin, image);
      BeginOrderly(package, limit);
      RepeatsAnswered(link.device, link.profile, begin);
      var a, heard := Exchange(link, begin, image);
      GrewOrderly([], link.log, Sent(begin, 0), maxRetries + 1, a.Interrupted?, package, limit);
      GrewBound([], link.log, Sent(begin, 0), maxRetries + 1, a.Interrupted?);
      ghost var n := |link.exchanges|;
      assert link.exchanges[n - 1] == old(link.clock);
      if !a.Answered? {
        return if a.Interrupted? then Cancelled else Failed(a.reason);
      }
      if a.response.next != 0 {
        return Failed(WrongOffset);
      }
      GrewBehind([], link.log, Sent(begin, 0), maxRetries + 1, 1, 0);
      var stopped, sequence := SendData(link, package, limit);
      if stopped.Some? {
        return if stopped.value.Interrupted? then Cancelled else Failed(stopped.value.reason);
      }
      r := Finish(link, package, manifest, limit, sequence);
    }

    /** COMMIT and the final verdict. */
    method Finish(link: Link, package: seq<byte>, manifest: Manifest, limit: nat, sequence: nat) returns (r: Outcome)
      requires Validate(package) == Ok(manifest)
      requires var image := package[BLOCK_SIZE..];
               && link.Safe(image) && link.acked == |image| && 1 <= sequence <= |image| + 1
               && Behind(link.log, sequence, |image|)
      requires OrderlyRun(link.log, package, limit, false)
      modifies link`clock, link`device, link`wiped, link`sent, link`produced, link`log, link`trace, link`taken, link`exchanges, link`accepted
      ensures old(link.exchanges) <= link.exchanges && old(link.accepted) <= link.accepted
      ensures r.Success? ==> |link.accepted| == |old(link.accepted)| + 1
                             && link.accepted[|old(link.accepted)|].stagedCrc == Some(r.stagedCrc)
      ensures r == Failed(NotStaged) ==> |link.accepted| == |old(link.accepted)| + 1
                                         && link.accepted[|old(link.accepted)|].stagedCrc.None?
      ensures r.Failed? ==> ExchangeFailure(r.reason) || r.reason.NotStaged?
      ensures link.Lossy() && old(link.taken) == |old(link.produced)| ==>
                if link.WellServed(|old(link.exchanges)|, maxRetries) then r.Success? else r == Failed(Timeout)
      ensures var image := package[BLOCK_SIZE..];
              && link.Safe(image)
              && (r.Success? ==> r.manifest == manifest)
              && (r.Success? && !link.wiped ==>
                    link.device.image == image && r.stagedCrc == manifest.imageCrc == Crc32.Crc(image))
              && OrderlyRun(link.log, package, limit, r.Cancelled?)
              && |link.log| <= |old(link.log)| + (maxRetries + 1) + (if r.Cancelled? then 1 else 0)
    {
      hide Decode, Encode, Faithful, Validate, Orderly, Crc32.Crc, OrderlyRun, Grew, Behind, Link.Safe, HandleFrame,
        Idempotent, Link.Lossy, Link.Starved, Decides;
      ImageFits(package);
      var image := package[BLOCK_SIZE..];
      var offset := |image|;
      var cancelled := CheckCancelled(link, sequence, offset, image);
      if cancelled {
        BehindCloses(old(link.log), sequence, offset);
        InterruptedRun(old(link.log), link.log, package, limit);
        return Cancelled;
      }
      var commit := UploadFrame(Commit, sequence, offset, []);
      ControlFaithful(commit, image);
      CommitOrderly(commit, package, limit);
      RepeatsAnswered(link.device, link.profile, commit);
      var a, heard := Exchange(link, commit, image);
      GrewOrderly(old(link.log), link.log, Sent(commit, offset), maxRetries + 1, a.Interrupted?, package, limit);
      GrewBound(old(link.log), link.log, Sent(commit, offset), maxRetries + 1, a.Interrupted?);
      ghost var n := |old(link.exchanges)|;
      assert link.exchanges[n..] == [link.exchanges[n]];
      if !a.Answered? {
        return if a.Interrupted? then Cancelled else Failed(a.reason);
      }
      if a.response.stagedCrc.None? {
        return Failed(NotStaged);
      }
      StagedTruthful(link, image, a.response);
      ManifestCrcOfImage(package);
      var trailing := link.ReadLine();
      return Success(a.response.stagedCrc.value, manifest);
    }
  }

  // ---- Facts used by the uploader ----

  /** A reliable link greets, and serves every exchange at the first attempt. */
  lemma ReliableServes(link: Link, retries: nat)
    requires link.Reliable()
    ensures link.Lossy() && forall t :: link.Greeted(t) && !link.Starved(t, retries)
  {
    forall t: nat ensures link.Greeted(t) && !link.Starved(t, retries) {
      assert link.AttemptThrough(t, 0);
    }
  }

  lemma OnlyExchangeFailures()
    ensures !ExchangeFailure(WrongOffset)
  {}

  lemma EmptyRun(package: seq<byte>, limit: nat)
    requires |package| >= BLOCK_SIZE
    ensures OrderlyRun([], package, limit, false) && Behind([], 0, 0)
  {}

  lemma BehindCloses(log: seq<Sent>, sequence: nat, offset: nat)
    requires Behind(log, sequence, offset) && sequence <= offset + 1
    ensures Closes(Sent(UploadFrame(Cancel, sequence, offset, []), offset), log)
  {}

  lemma InterruptedRun(was: seq<Sent>, log: seq<Sent>, package: seq<byte>, limit: nat)
    requires |package| >= BLOCK_SIZE && OrderlyRun(was, package, limit, false)
    requires |log| == |was| + 1 && was <= log && Closes(log[|was|], was)
    ensures OrderlyRun(log, package, limit, true)
  {
    hide Orderly;
    assert log[..|log| - 1] == was;
  }

  lemma GrewBound(was: seq<Sent>, log: seq<Sent>, e: Sent, n: nat, interrupted: bool)
    requires Grew(was, log, e, n, interrupted)
    ensures |log| <= |was| + n + (if interrupted then 1 else 0)
  {}

  lemma ImageFits(package: seq<byte>)
    requires Validate(package).Ok?
    ensures |package| >= BLOCK_SIZE && |package[BLOCK_SIZE..]| <= 0x5_0000
    ensures |package[BLOCK_SIZE..]| == Validate(package).value.imageSize && Validate(package).value.targetId == TARGET_ID
  {}

  lemma ManifestCrcOfImage(package: seq<byte>)
    requires Validate(package).Ok?
    ensures |package| >= BLOCK_SIZE && Validate(package).value.imageCrc == Crc32.Crc(package[BLOCK_SIZE..])
  {}

  lemma ControlFaithful(f: UploadFrame, image: seq<byte>)
    requires SenderRules(f) && InRange(f) && !f.frameType.Data?
    ensures Encode(f).Ok? && Faithful(Encode(f).value, image)
  {
    hide Decode, Crc32.Seal;
    DecodeEncode(f);
  }

  lemma DataFaithful(f: UploadFrame, image: seq<byte>)
    requires SenderRules(f) && InRange(f) && f.frameType.Data? && f.offset + |f.payload| <= |image|
    requires f.payload == image[f.offset..f.offset + |f.payload|]
    ensures Faithful(Encode(f).value, image)
  {
    hide Decode, Crc32.Seal;
    DecodeEncode(f);
  }

  lemma DataOrderly(f: UploadFrame, offset: nat, package: seq<byte>, limit: nat)
    requires |package| >= BLOCK_SIZE && offset < |package[BLOCK_SIZE..]| && f.frameType.Data? && f.offset == offset
    requires 1 <= f.sequence <= offset + 1 && f.payload == Chunk(package[BLOCK_SIZE..], offset, limit)
    ensures Orderly(Sent(f, offset), package, limit)
  {}

  lemma BeginOrderly(package: seq<byte>, limit: nat)
    requires |package| >= BLOCK_SIZE
    ensures Orderly(Sent(UploadFrame(Begin, 0, 0, package[..BEGIN_PAYLOAD_SIZE]), 0), package, limit)
  {}

  lemma CommitOrderly(f: UploadFrame, package: seq<byte>, limit: nat)
    requires |package| >= BLOCK_SIZE
    requires var n := |package[BLOCK_SIZE..]|;
             f == UploadFrame(Commit, f.sequence, n, []) && 1 <= f.sequence <= n + 1
    ensures Orderly(Sent(f, |package[BLOCK_SIZE..]|), package, limit)
  {}

  lemma RoundsStep(n: nat, taken: nat, limit: nat, retries: nat)
    requires limit > 0 && n > 0 && taken == if n <= limit then n else limit
    ensures Sends(retries, n, limit) == retries + 1 + Sends(retries, n - taken, limit)
  {
    var k := Rounds(n - taken, limit);
    assert Rounds(n, limit) == 1 + k;
    assert (retries + 1) * (1 + k) == retries + 1 + (retries + 1) * k;
  }

  lemma NoFrames(r: nat, n: nat)
    ensures 0 <= r * (n + 2)
  {}

  lemma Budget(r: nat, n: nat)
    ensures r * (n + 2) == r + r * n + r
  {}

  /** An accepted acknowledgement means the device holds that much. */
  lemma AckTruthful(link: Link, image: seq<byte>, response: Response)
    requires link.Safe(image) && response.next > 0
    requires exists r :: r in link.produced && ParseResponse(r) == Some(response)
    ensures response.acknowledged && !link.wiped ==> response.next <= |link.device.image| <= |image|
  {
    hide Decode, Faithful, Crc32.Crc, IsCommit;
    var r :| r in link.produced && ParseResponse(r) == Some(response);
  }

  /** An accepted STAGED means the device holds the image and computed its CRC. */
  lemma StagedTruthful(link: Link, image: seq<byte>, response: Response)
    requires link.Safe(image) && response.stagedCrc.Some?
    requires exists r :: r in link.produced && ParseResponse(r) == Some(response)
    ensures !link.wiped ==> link.device.image == image && response.stagedCrc.value == Crc32.Crc(image)
  {
    hide Decode, Faithful, Crc32.Crc, IsCommit;
    var r :| r in link.produced && ParseResponse(r) == Some(response);
  }

  /**
   * Why a late begin command is harmful: it resets the device, a COMMIT behind it stages an empty
   * image, and the host, which never compares the reported CRC, takes that as success.
   */
  lemma LateCommandStagesNothing(d: Device, p: Profile, commit: UploadFrame)
    requires commit.frameType.Commit? && SenderRules(commit) && InRange(commit)
    ensures var reset := WriteRaw(d, p, BEGIN_COMMAND).0;
            var (staged, replies) := WriteRaw(reset, p, Encode(commit).value);
            && staged.image == []
            && replies == [Staged(Crc32.Crc([])), OkLine]
            && Accepts(replies[0]) && ParseResponse(replies[0]).value.stagedCrc.Some?
  {
    hide Decode, Encode, Crc32.Crc, Body, Crc32.Seal;
    EncodeSucceeds(commit);
    CommandIntact();
    CommitDecodes(Encode(commit).value, commit);
    var reset := WriteRaw(d, p, BEGIN_COMMAND).0;
    WriteFrame(reset, p, Encode(commit).value, commit);
  }

  /** A begin command that arrives again leaves all that was acknowledged true exactly when nothing was held. */
  lemma LateCommandHarmless(d: Device, p: Profile, m: Damage, image: seq<byte>)
    requires Holds(d, image)
    ensures var d' := WriteRaw(d, p, Damaged(BEGIN_COMMAND, m)).0;
            (forall r :: Truthful(r, d, image) ==> Truthful(r, d', image))
            <==> d.image == [] || !IsBeginCommand(Damaged(BEGIN_COMMAND, m))
  {
    hide WriteRaw, Damaged, IsBeginCommand, Crc32.Crc;
    CommandDelivery(d, p, m);
    var d' := WriteRaw(d, p, Damaged(BEGIN_COMMAND, m)).0;
    if d.image != [] && IsBeginCommand(Damaged(BEGIN_COMMAND, m)) {
      assert Truthful(Ack(0, |d.image|), d, image) && !Truthful(Ack(0, |d.image|), d', image);
    }
  }

  lemma EncodeSucceeds(f: UploadFrame)
    requires SenderRules(f) && InRange(f)
    ensures Encode(f).Ok?
  {}
}
