/** The send and receive bookkeeping of the secure socket: the queue of
    outgoing transfers (protocol data first, application data held back
    while the TLS handshake is in progress, one socket send in flight), the
    drain of that queue when the connection closes, and the buffer of
    decrypted bytes that feeds a pending receive.

    The socket and the record layer are abstracted. A socket send is
    recorded, not performed; the record layer is reduced to whether it exists
    and is negotiating, and its EncryptBytes is an arbitrary function. An
    AsyncResult is known by a number (null is None). Its Notify call is
    recorded, and "IsCompleted" means "has been notified". */
module SocketControl {
  import opened Common

  datatype DataType = ProtocolData | ApplicationData

  /** The identity of an AsyncResult object. */
  type Handle = nat

  /** A pending transfer: the caller's buffer, the segment to transfer, the
      AsyncResult to notify, the kind of data and the bytes done so far. */
  datatype TransferItem = TransferItem(buffer: seq<byte>, offset: int, size: int,
                                       asyncResult: Option<Handle>, kind: DataType,
                                       transferred: int)

  /** The record layer: absent until the hello is processed, then present
      and possibly (re)negotiating. */
  datatype RecordLayer = NoRecordLayer | Layer(negotiating: bool)

  /** AsyncResult.Notify(error) on the given AsyncResult. */
  datatype Notification = Notification(handle: Handle, error: Option<Exception>)

  /** Socket.BeginSend(buffer, offset, size, ...). */
  datatype SocketSend = SocketSend(buffer: seq<byte>, offset: int, size: int)

  /** RecordLayer.EncryptBytes(buffer, offset, size, ApplicationData). */
  type Encryptor = (seq<byte>, int, int) -> seq<byte>

  /** The controller's fields, as a value. */
  datatype Controller = Controller(
    toSend: seq<TransferItem>,        // m_ToSendList
    sent: seq<TransferItem>,          // m_SentList
    activeSend: Option<TransferItem>, // m_ActiveSend
    activeReceive: Option<TransferItem>, // m_ActiveReceive
    isDisposed: bool,
    isSending: bool,
    isShuttingDown: bool,
    decrypted: seq<byte>,             // m_DecryptedBuffer
    recordLayer: RecordLayer,
    notified: seq<Notification>,      // every Notify call, in order
    socketSends: seq<SocketSend>,     // every socket send issued, in order
    nextHandle: Handle)               // the next AsyncResult to allocate

  // ---- the queue discipline ----

  /** IsNegotiationCompleted: never without a record layer; with one,
      exactly when it is not negotiating. */
  function IsNegotiationCompleted(rl: RecordLayer): (done: bool)
    ensures rl.NoRecordLayer? ==> !done
    ensures rl.Layer? ==> (done <==> !rl.negotiating)
  {
    rl.Layer? && !rl.negotiating
  }

  /** ResumeSending's test that keeps the head of the queue back: it is
      application data and the record layer is absent, or present and
      negotiating. */
  predicate HoldsBack(rl: RecordLayer, head: TransferItem) {
    || (rl.NoRecordLayer? && head.kind == ApplicationData)
    || (rl.Layer? && rl.negotiating && head.kind == ApplicationData)
  }

  /** Application data is held back exactly while negotiation is not
      complete, the test internal BeginSend applies; protocol data never. */
  lemma HoldsBackUntilNegotiated(rl: RecordLayer, head: TransferItem)
    ensures HoldsBack(rl, head) <==> head.kind == ApplicationData && !IsNegotiationCompleted(rl)
  {
  }

  /** No protocol item is queued behind an application item. */
  predicate ProtocolFirst(items: seq<TransferItem>) {
    forall i, j :: 0 <= i < j < |items| && items[i].kind == ApplicationData ==> items[j].kind == ApplicationData
  }

  /** m_ToSendList.Insert(position, item): protocol data at index 0,
      application data at the end. */
  function Enqueue(queue: seq<TransferItem>, item: TransferItem): (r: seq<TransferItem>)
    ensures multiset(r) == multiset(queue) + multiset{item}
    ensures item.kind == ProtocolData ==> r == [item] + queue
    ensures item.kind == ApplicationData ==> r == queue + [item]
  {
    if item.kind == ProtocolData then [item] + queue else queue + [item]
  }

  /** Enqueueing keeps protocol data ahead of application data. */
  lemma EnqueueKeepsProtocolFirst(queue: seq<TransferItem>, item: TransferItem)
    requires ProtocolFirst(queue)
    ensures ProtocolFirst(Enqueue(queue, item))
  {
    var r := Enqueue(queue, item);
    forall i, j | 0 <= i < j < |r| && r[i].kind == ApplicationData
      ensures r[j].kind == ApplicationData
    {
      if item.kind == ProtocolData {
        assert r[i] == queue[i - 1] && r[j] == queue[j - 1];
      } else if j < |queue| {
        assert r[i] == queue[i] && r[j] == queue[j];
      }
    }
  }

  /** What the controller keeps true between calls: a send in flight has
      its item in ActiveSend, and the queue holds protocol data first. */
  predicate Valid(s: Controller) {
    (s.isSending ==> s.activeSend.Some?) && ProtocolFirst(s.toSend)
  }

  // ---- ResumeSending ----

  /** ResumeSending: unless a send is in flight, the queue is empty or its
      head is held back, take the head off the queue (encrypting
      application data), make it the active send and issue the socket send. */
  function ResumeSendingSpec(s: Controller, encrypt: Encryptor): Controller {
    if s.isSending || |s.toSend| == 0 || HoldsBack(s.recordLayer, s.toSend[0]) then s
    else
      var head := s.toSend[0];
      var item :=
        if head.kind == ApplicationData then
          var enc := encrypt(head.buffer, head.offset, head.size);
          head.(buffer := enc, offset := 0, size := |enc|)
        else head;
      s.(activeSend := Some(item), toSend := s.toSend[1..], isSending := true,
         socketSends := s.socketSends + [SocketSend(item.buffer, item.offset, item.size)])
  }

  /** ResumeSending does nothing exactly when a send is in flight, the
      queue is empty or its head is held back; otherwise it takes exactly
      the head, sets IsSending and issues exactly one socket send of the
      active item, touching nothing else. */
  lemma ResumeSendingRule(s: Controller, encrypt: Encryptor)
    ensures var t := ResumeSendingSpec(s, encrypt);
      && (t == s <==> s.isSending || |s.toSend| == 0 || HoldsBack(s.recordLayer, s.toSend[0]))
      && (t != s ==>
            && t.toSend == s.toSend[1..] && t.isSending
            && t.activeSend.Some?
            && t.activeSend.value.asyncResult == s.toSend[0].asyncResult
            && t.activeSend.value.kind == s.toSend[0].kind
            && (s.toSend[0].kind == ProtocolData ==> t.activeSend.value == s.toSend[0])
            && t.socketSends == s.socketSends + [SocketSend(t.activeSend.value.buffer, t.activeSend.value.offset, t.activeSend.value.size)]
            && t.sent == s.sent && t.notified == s.notified && t.isDisposed == s.isDisposed)
  {
    var t := ResumeSendingSpec(s, encrypt);
    if !(s.isSending || |s.toSend| == 0 || HoldsBack(s.recordLayer, s.toSend[0])) {
      assert |t.socketSends| == |s.socketSends| + 1;
    }
  }

  /** At most one send is in flight: while one is, ResumeSending issues
      none. */
  lemma OneSendInFlight(s: Controller, encrypt: Encryptor)
    requires s.isSending
    ensures ResumeSendingSpec(s, encrypt).socketSends == s.socketSends
  {
  }

  lemma ResumeSendingKeepsValid(s: Controller, encrypt: Encryptor)
    requires Valid(s)
    ensures Valid(ResumeSendingSpec(s, encrypt))
  {
    var t := ResumeSendingSpec(s, encrypt);
    if t != s {
      forall i, j | 0 <= i < j < |t.toSend| && t.toSend[i].kind == ApplicationData
        ensures t.toSend[j].kind == ApplicationData
      {
        assert t.toSend[i] == s.toSend[i + 1] && t.toSend[j] == s.toSend[j + 1];
      }
    }
  }

  // ---- BeginSend ----

  /** The internal BeginSend: application data before negotiation completes
      throws SslException with nothing changed; otherwise the item is queued
      (protocol data at the front) and sending resumes. */
  function BeginSendSpec(s: Controller, buffer: seq<byte>, offset: int, size: int,
                         asyncResult: Option<Handle>, kind: DataType, encrypt: Encryptor): Result<Controller>
  {
    if kind == ApplicationData && !IsNegotiationCompleted(s.recordLayer) then Throws(SslError)
    else
      var item := TransferItem(buffer, offset, size, asyncResult, kind, 0);
      Ok(ResumeSendingSpec(s.(toSend := Enqueue(s.toSend, item)), encrypt))
  }

  /** The public BeginSend: a disposed controller throws
      ObjectDisposedException and one shutting down throws SocketException,
      both with the queue unchanged; otherwise a new AsyncResult is
      allocated and the data goes through the internal BeginSend as
      application data. */
  function PublicBeginSendSpec(s: Controller, buffer: seq<byte>, offset: int, size: int,
                               encrypt: Encryptor): (Result<Handle>, Controller)
  {
    if s.isDisposed then (Throws(ObjectDisposed), s)
    else if s.isShuttingDown then (Throws(SocketError), s)
    else
      var h := s.nextHandle;
      var s1 := s.(nextHandle := h + 1);
      match BeginSendSpec(s1, buffer, offset, size, Some(h), ApplicationData, encrypt)
      case Throws(e) => (Throws(e), s1)
      case Ok(t) => (Ok(h), t)
  }

  /** BeginSend either throws with the queue, the lists and the flags
      untouched, or queues the item so that the queue before the call, with
      the item added, is what is left queued plus what ResumeSending took. */
  lemma BeginSendOutcome(s: Controller, buffer: seq<byte>, offset: int, size: int,
                         asyncResult: Option<Handle>, kind: DataType, encrypt: Encryptor)
    requires Valid(s)
    ensures var r := BeginSendSpec(s, buffer, offset, size, asyncResult, kind, encrypt);
      && (r.Throws? <==> kind == ApplicationData && !IsNegotiationCompleted(s.recordLayer))
      && (r.Ok? ==> Valid(r.value))
      && (r.Ok? ==>
            var item := TransferItem(buffer, offset, size, asyncResult, kind, 0);
            var queued := Enqueue(s.toSend, item);
            || r.value.toSend == queued
            || (r.value.toSend == queued[1..] && r.value.activeSend.Some? &&
                r.value.activeSend.value.asyncResult == queued[0].asyncResult))
  {
    if !(kind == ApplicationData && !IsNegotiationCompleted(s.recordLayer)) {
      var item := TransferItem(buffer, offset, size, asyncResult, kind, 0);
      EnqueueKeepsProtocolFirst(s.toSend, item);
      var s1 := s.(toSend := Enqueue(s.toSend, item));
      ResumeSendingKeepsValid(s1, encrypt);
      ResumeSendingRule(s1, encrypt);
    }
  }

  /** The public BeginSend refuses a disposed or shutting-down controller,
      leaving everything as it was. */
  lemma PublicBeginSendGuards(s: Controller, buffer: seq<byte>, offset: int, size: int, encrypt: Encryptor)
    ensures var (r, t) := PublicBeginSendSpec(s, buffer, offset, size, encrypt);
      && (s.isDisposed ==> r == Throws(ObjectDisposed) && t == s)
      && (!s.isDisposed && s.isShuttingDown ==> r == Throws(SocketError) && t == s)
      && (r.Ok? ==> r.value == s.nextHandle && !s.isDisposed && !s.isShuttingDown &&
                    IsNegotiationCompleted(s.recordLayer))
  {
  }

  /** Two protocol items queued one after the other (and held in the queue
      by a send in flight) end up in the reverse order: the later one is
      sent first. */
  lemma ProtocolItemsJumpTheQueue(s: Controller, p1: seq<byte>, p2: seq<byte>, encrypt: Encryptor)
    requires s.isSending
    ensures var r1 := BeginSendSpec(s, p1, 0, |p1|, None, ProtocolData, encrypt);
      && r1.Ok?
      && var r2 := BeginSendSpec(r1.value, p2, 0, |p2|, None, ProtocolData, encrypt);
      && r2.Ok?
      && r2.value.toSend == [TransferItem(p2, 0, |p2|, None, ProtocolData, 0),
                             TransferItem(p1, 0, |p1|, None, ProtocolData, 0)] + s.toSend
  {
  }

  // ---- OnSent ----

  /** OnSent, after the socket reported `sent` more bytes of the active
      send: while the item is incomplete the rest is re-issued from
      Offset + Transferred; once complete, IsSending is cleared, an item
      with an AsyncResult is moved to the sent list and notified, and the
      connection closes (when shutting down with no protocol data left) or
      sending resumes. A disposed controller ignores the callback. */
  function OnSentSpec(s: Controller, sent: int, encrypt: Encryptor): Controller
    requires s.isDisposed || s.activeSend.Some?
  {
    if s.isDisposed then s
    else
      var a := s.activeSend.value.(transferred := s.activeSend.value.transferred + sent);
      var s1 := s.(activeSend := Some(a));
      if a.transferred != a.size then
        s1.(socketSends := s1.socketSends + [SocketSend(a.buffer, a.offset + a.transferred, a.size - a.transferred)])
      else
        var s2 := s1.(isSending := false);
        var s3 :=
          if a.asyncResult.Some? then
            s2.(sent := s2.sent + [a], notified := s2.notified + [Notification(a.asyncResult.value, None)])
          else s2;
        if s3.isShuttingDown && (|s3.toSend| == 0 || s3.toSend[0].kind == ApplicationData) then
          CloseSpec(s3, None)
        else
          ResumeSendingSpec(s3, encrypt)
  }

  /** A partial send keeps the send in flight and re-issues exactly the
      remaining bytes; nothing is notified and the queue is untouched. */
  lemma PartialSendReissues(s: Controller, sent: int, encrypt: Encryptor)
    requires !s.isDisposed && s.isSending && s.activeSend.Some?
    requires s.activeSend.value.transferred + sent != s.activeSend.value.size
    ensures var t := OnSentSpec(s, sent, encrypt);
      var a := s.activeSend.value;
      && t.isSending && t.toSend == s.toSend && t.notified == s.notified
      && t.activeSend == Some(a.(transferred := a.transferred + sent))
      && t.socketSends == s.socketSends +
           [SocketSend(a.buffer, a.offset + a.transferred + sent, a.size - a.transferred - sent)]
  {
  }

  /** A completed send notifies its AsyncResult (when it has one) and
      records it as sent; unless the connection closes, the next send can
      start. */
  lemma CompletedSendNotifies(s: Controller, sent: int, encrypt: Encryptor)
    requires Valid(s) && !s.isDisposed && s.activeSend.Some?
    requires s.activeSend.value.transferred + sent == s.activeSend.value.size
    requires s.activeSend.value.asyncResult.Some?
    ensures var t := OnSentSpec(s, sent, encrypt);
      && |t.notified| > |s.notified|
      && t.notified[|s.notified|] == Notification(s.activeSend.value.asyncResult.value, None)
      && |t.sent| > |s.sent|
      && t.sent[|s.sent|] == s.activeSend.value.(transferred := s.activeSend.value.size)
  {
    var a := s.activeSend.value.(transferred := s.activeSend.value.transferred + sent);
    var s3 := s.(activeSend := Some(a), isSending := false,
                 sent := s.sent + [a], notified := s.notified + [Notification(a.asyncResult.value, None)]);
    if s3.isShuttingDown && (|s3.toSend| == 0 || s3.toSend[0].kind == ApplicationData) {
      CloseKeepsRecords(s3, None);
    }
  }

  lemma OnSentKeepsValid(s: Controller, sent: int, encrypt: Encryptor)
    requires Valid(s) && (s.isDisposed || s.activeSend.Some?)
    ensures Valid(OnSentSpec(s, sent, encrypt))
  {
    if !s.isDisposed {
      var a := s.activeSend.value.(transferred := s.activeSend.value.transferred + sent);
      if a.transferred == a.size {
        var s2 := s.(activeSend := Some(a), isSending := false);
        var s3 :=
          if a.asyncResult.Some? then
            s2.(sent := s2.sent + [a], notified := s2.notified + [Notification(a.asyncResult.value, None)])
          else s2;
        assert Valid(s3);
        if s3.isShuttingDown && (|s3.toSend| == 0 || s3.toSend[0].kind == ApplicationData) {
          CloseKeepsValid(s3, None);
        } else {
          ResumeSendingKeepsValid(s3, encrypt);
        }
      }
    }
  }

  // ---- CloseConnection ----

  /** The notifications the drain loop sends: one per queued item that has
      an AsyncResult, in queue order. */
  function DrainNotices(items: seq<TransferItem>, f: Exception): seq<Notification>
    decreases |items|
  {
    if items == [] then []
    else
      var last := items[|items| - 1];
      DrainNotices(items[..|items| - 1], f) +
        (if last.asyncResult.Some? then [Notification(last.asyncResult.value, Some(f))] else [])
  }

  /** One more turn of the drain loop: the prefix grows by one item. */
  lemma DrainNoticesPrefix(items: seq<TransferItem>, i: nat, f: Exception)
    requires i < |items|
    ensures items[..i + 1] == items[..i] + [items[i]]
    ensures DrainNotices(items[..i + 1], f) == DrainNotices(items[..i], f) +
              (if items[i].asyncResult.Some? then [Notification(items[i].asyncResult.value, Some(f))] else [])
  {
    assert items[..i + 1][..i] == items[..i];
  }

  /** At most one notification per queued item. */
  lemma {:induction false} DrainNoticesLength(items: seq<TransferItem>, f: Exception)
    ensures |DrainNotices(items, f)| <= |items|
    decreases |items|
  {
    if items != [] {
      DrainNoticesLength(items[..|items| - 1], f);
    }
  }

  /** Every queued item with an AsyncResult is notified with the error. */
  lemma {:induction false} DrainNotifiesEach(items: seq<TransferItem>, f: Exception, k: nat)
    requires k < |items| && items[k].asyncResult.Some?
    ensures Notification(items[k].asyncResult.value, Some(f)) in DrainNotices(items, f)
    decreases |items|
  {
    if k < |items| - 1 {
      DrainNotifiesEach(items[..|items| - 1], f, k);
    }
  }

  /** The error queued transfers are failed with: the closing exception,
      or an SslException when the connection closed normally. */
  function DrainError(e: Option<Exception>): Exception {
    if e.Some? then e.value else SslError
  }

  /** The state CloseConnection reaches on its first call, before the
      drain loop: disposed, with an active send that has an AsyncResult
      moved to the sent list and notified. */
  function CloseStart(s: Controller, e: Option<Exception>): Controller {
    var s1 := s.(isDisposed := true);
    if s1.activeSend.Some? && s1.activeSend.value.asyncResult.Some? then
      s1.(sent := s1.sent + [s1.activeSend.value],
          notified := s1.notified + [Notification(s1.activeSend.value.asyncResult.value, e)])
    else s1
  }

  /** The receive notification at the end of CloseConnection. */
  function CloseReceive(s: Controller, e: Option<Exception>): Controller {
    if s.activeReceive.Some? && s.activeReceive.value.asyncResult.Some? then
      s.(notified := s.notified + [Notification(s.activeReceive.value.asyncResult.value, e)])
    else s
  }

  /** CloseConnection, with the drain loop's Notify guarded against a null
      AsyncResult: only the first call acts; it disposes the controller,
      fails the active send, moves every queued item to the sent list,
      notifies those with an AsyncResult, empties the queue and fails a
      pending receive. */
  function CloseSpec(s: Controller, e: Option<Exception>): Controller {
    if s.isDisposed then s
    else CloseReceive(CloseDrain(CloseStart(s, e), DrainError(e)), e)
  }

  /** The drain loop followed by m_ToSendList.Clear(): every queued item is
      added to the sent list, those with an AsyncResult are notified with
      `f`, the last one is left as the active send and the queue is
      emptied. */
  function CloseDrain(s: Controller, f: Exception): Controller {
    var q := s.toSend;
    s.(activeSend := if |q| > 0 then Some(q[|q| - 1]) else s.activeSend,
       sent := s.sent + q,
       notified := s.notified + DrainNotices(q, f),
       toSend := [])
  }

  /** After CloseConnection the controller is disposed, its queue is empty,
      every item that was queued is in the sent list after what was there
      before, and every queued item with an AsyncResult has been notified
      with the drain error; a second call changes nothing. */
  lemma CloseDrainsQueue(s: Controller, e: Option<Exception>, e2: Option<Exception>)
    requires !s.isDisposed
    ensures var t := CloseSpec(s, e);
      && t.isDisposed && t.toSend == []
      && |t.sent| >= |s.sent| + |s.toSend| && t.sent[..|s.sent|] == s.sent
      && t.sent[|t.sent| - |s.toSend|..] == s.toSend
      && (forall k :: 0 <= k < |s.toSend| && s.toSend[k].asyncResult.Some? ==>
            Notification(s.toSend[k].asyncResult.value, Some(DrainError(e))) in t.notified)
      && CloseSpec(t, e2) == t
  {
    var s2 := CloseStart(s, e);
    var s3 := CloseDrain(s2, DrainError(e));
    var t := CloseSpec(s, e);
    assert s2.toSend == s.toSend;
    assert t.sent == s3.sent == s2.sent + s.toSend;
    forall k | 0 <= k < |s.toSend| && s.toSend[k].asyncResult.Some?
      ensures Notification(s.toSend[k].asyncResult.value, Some(DrainError(e))) in t.notified
    {
      DrainNotifiesEach(s.toSend, DrainError(e), k);
      assert Notification(s.toSend[k].asyncResult.value, Some(DrainError(e))) in s3.notified;
    }
  }

  /** Closing never loses a sent record or a notification already made. */
  lemma CloseKeepsRecords(s: Controller, e: Option<Exception>)
    ensures var t := CloseSpec(s, e);
      && |t.sent| >= |s.sent| && t.sent[..|s.sent|] == s.sent
      && |t.notified| >= |s.notified| && t.notified[..|s.notified|] == s.notified
  {
    if !s.isDisposed {
      var t := CloseSpec(s, e);
      var s2 := CloseStart(s, e);
      assert s2.sent[..|s.sent|] == s.sent && s2.notified[..|s.notified|] == s.notified;
      assert t.sent[..|s2.sent|] == s2.sent;
      assert t.notified[..|s2.notified|] == s2.notified;
      assert t.sent[..|s.sent|] == s2.sent[..|s.sent|];
      assert t.notified[..|s.notified|] == s2.notified[..|s.notified|];
    }
  }

  lemma CloseKeepsValid(s: Controller, e: Option<Exception>)
    requires Valid(s)
    ensures Valid(CloseSpec(s, e))
  {
  }

  /** The index of the first item without an AsyncResult, if any. */
  function FirstNullIndex(items: seq<TransferItem>): (r: Option<nat>)
    ensures r.None? <==> forall i :: 0 <= i < |items| ==> items[i].asyncResult.Some?
    ensures r.Some? ==> r.value < |items| && items[r.value].asyncResult.None? &&
                        forall i :: 0 <= i < r.value ==> items[i].asyncResult.Some?
  {
    if items == [] then None
    else if items[0].asyncResult.None? then Some(0)
    else
      var r := FirstNullIndex(items[1..]);
      if r.None? then None else Some(r.value + 1)
  }

  /** CloseConnection as written: the drain loop calls Notify on every
      queued item's AsyncResult, so the first queued item without one (a
      protocol item: the client hello, a handshake reply or a renegotiation
      request) raises NullReferenceException out of the loop. The queue is
      then left as it was, the items behind that one are never notified,
      and the pending receive is not failed. Returns the state reached and
      the exception raised, if any. */
  function CloseAsWritten(s: Controller, e: Option<Exception>): (r: (Controller, Option<Exception>))
    ensures r.1.None? <==> s.isDisposed || forall i :: 0 <= i < |s.toSend| ==> s.toSend[i].asyncResult.Some?
    ensures r.1.Some? ==> r.1 == Some(NullReference) && r.0.toSend == s.toSend && r.0.isDisposed
    ensures r.1.None? ==> r.0 == CloseSpec(s, e)
  {
    if s.isDisposed then (s, None)
    else
      var s2 := CloseStart(s, e);
      var q := s2.toSend;
      match FirstNullIndex(q)
      case None => (CloseSpec(s, e), None)
      case Some(k) =>
        (s2.(activeSend := Some(q[k]),
             sent := s2.sent + q[..k + 1],
             notified := s2.notified + DrainNotices(q[..k], DrainError(e))),
         Some(NullReference))
  }

  /** Every queued application item has an AsyncResult: application data
      is queued only by the public BeginSend, which allocates one. */
  predicate ApplicationItemsHaveResult(items: seq<TransferItem>) {
    forall i :: 0 <= i < |items| && items[i].kind == ApplicationData ==> items[i].asyncResult.Some?
  }

  /** The public BeginSend keeps every queued application item carrying an
      AsyncResult. */
  lemma PublicBeginSendKeepsResults(s: Controller, buffer: seq<byte>, offset: int, size: int, encrypt: Encryptor)
    requires ApplicationItemsHaveResult(s.toSend)
    ensures ApplicationItemsHaveResult(PublicBeginSendSpec(s, buffer, offset, size, encrypt).1.toSend)
  {
    if !s.isDisposed && !s.isShuttingDown {
      var h := s.nextHandle;
      var s1 := s.(nextHandle := h + 1);
      if !IsNegotiationCompleted(s1.recordLayer) {
        assert PublicBeginSendSpec(s, buffer, offset, size, encrypt).1 == s1;
      } else {
        var item := TransferItem(buffer, offset, size, Some(h), ApplicationData, 0);
        var q := Enqueue(s1.toSend, item);
        assert ApplicationItemsHaveResult(q) by {
          forall i | 0 <= i < |q| && q[i].kind == ApplicationData
            ensures q[i].asyncResult.Some?
          {
            if i < |s.toSend| {
              assert q[i] == s.toSend[i];
            }
          }
        }
        var t := ResumeSendingSpec(s1.(toSend := q), encrypt);
        assert t.toSend == q || t.toSend == q[1..];
        assert ApplicationItemsHaveResult(t.toSend) by {
          forall i | 0 <= i < |t.toSend| && t.toSend[i].kind == ApplicationData
            ensures t.toSend[i].asyncResult.Some?
          {
            if t.toSend != q {
              assert t.toSend[i] == q[i + 1];
            }
          }
        }
        assert PublicBeginSendSpec(s, buffer, offset, size, encrypt).1 == t;
      }
    }
  }

  /** When the queue is empty or starts with application data, and
      application items carry AsyncResults, the close as written raises
      nothing and agrees with the corrected close: with protocol data
      first, such a queue holds application items only. */
  lemma ApplicationQueueClosesAsWritten(s: Controller, e: Option<Exception>)
    requires ProtocolFirst(s.toSend) && ApplicationItemsHaveResult(s.toSend)
    requires |s.toSend| == 0 || s.toSend[0].kind == ApplicationData
    ensures CloseAsWritten(s, e) == (CloseSpec(s, e), None)
  {
    forall i | 0 <= i < |s.toSend|
      ensures s.toSend[i].asyncResult.Some?
    {
      if i > 0 {
        assert s.toSend[i].kind == ApplicationData;
      }
    }
  }

  /** OnSent's shutdown path closes as CloseConnection(null) is written at
      line 176: the queue it closes with is empty or starts with
      application data, so the close raises nothing and leaves the
      corrected close's state. */
  lemma OnSentShutdownAsWritten(s: Controller, sent: int, encrypt: Encryptor)
    requires Valid(s) && !s.isDisposed && s.activeSend.Some? && ApplicationItemsHaveResult(s.toSend)
    requires s.activeSend.value.transferred + sent == s.activeSend.value.size
    requires s.isShuttingDown && (|s.toSend| == 0 || s.toSend[0].kind == ApplicationData)
    ensures var a := s.activeSend.value.(transferred := s.activeSend.value.transferred + sent);
      var s2 := s.(activeSend := Some(a), isSending := false);
      var s3 := if a.asyncResult.Some? then
                  s2.(sent := s2.sent + [a], notified := s2.notified + [Notification(a.asyncResult.value, None)])
                else s2;
      CloseAsWritten(s3, None) == (OnSentSpec(s, sent, encrypt), None)
  {
    var a := s.activeSend.value.(transferred := s.activeSend.value.transferred + sent);
    var s2 := s.(activeSend := Some(a), isSending := false);
    var s3 := if a.asyncResult.Some? then
                s2.(sent := s2.sent + [a], notified := s2.notified + [Notification(a.asyncResult.value, None)])
              else s2;
    ApplicationQueueClosesAsWritten(s3, None);
    assert OnSentSpec(s, sent, encrypt) == CloseSpec(s3, None);
  }

  /** With a queued item lacking an AsyncResult, the close as written
      raises NullReferenceException, leaves the queue full and notifies
      none of the items behind it; the corrected close drains the queue. */
  lemma CloseAsWrittenFaults(s: Controller, e: Option<Exception>, k: nat)
    requires !s.isDisposed && k < |s.toSend| && s.toSend[k].asyncResult.None?
    ensures var (t, raised) := CloseAsWritten(s, e);
      && raised == Some(NullReference)
      && t.toSend == s.toSend
      && |t.notified| <= |s.notified| + 1 + k
    ensures CloseSpec(s, e).toSend == []
  {
    var s2 := CloseStart(s, e);
    var j := FirstNullIndex(s2.toSend).value;
    assert j <= k;
    DrainNoticesLength(s2.toSend[..j], DrainError(e));
  }

  /** A concrete case: a renegotiation request (no AsyncResult) queued
      ahead of the application's send 7. The close as written raises and
      send 7 is never completed; the corrected close fails it with the
      drain error. */
  lemma QueuedProtocolItemHidesSend()
    ensures var app := TransferItem([1], 0, 1, Some(7), ApplicationData, 0);
      var proto := TransferItem([2], 0, 1, None, ProtocolData, 0);
      var s := Controller([proto, app], [], None, None, false, false, false, [], Layer(true), [], [], 8);
      && CloseAsWritten(s, None).1 == Some(NullReference)
      && CloseAsWritten(s, None).0.notified == []
      && CloseAsWritten(s, None).0.toSend == [proto, app]
      && CloseSpec(s, None).notified == [Notification(7, Some(SslError))]
      && CloseSpec(s, None).toSend == []
  {
    var app := TransferItem([1], 0, 1, Some(7), ApplicationData, 0);
    var proto := TransferItem([2], 0, 1, None, ProtocolData, 0);
    var q := [proto, app];
    assert q[..1] == [proto] && q[..0] == [];
    assert DrainNotices([proto], SslError) == [];
    assert DrainNotices(q, SslError) == DrainNotices([proto], SslError) + [Notification(7, Some(SslError))];
  }

  // ---- receiving ----

  /** Whether the AsyncResult has completed: it has been notified. */
  predicate IsCompleted(notified: seq<Notification>, h: Handle) {
    exists i :: 0 <= i < |notified| && notified[i].handle == h
  }

  /** `buf` with the bytes from `offset` on replaced by `bytes`. */
  function Overwrite(buf: seq<byte>, offset: nat, bytes: seq<byte>): (r: seq<byte>)
    requires offset + |bytes| <= |buf|
    ensures |r| == |buf| && r[offset..offset + |bytes|] == bytes
    ensures r[..offset] == buf[..offset] && r[offset + |bytes|..] == buf[offset + |bytes|..]
  {
    buf[..offset] + bytes + buf[offset + |bytes|..]
  }

  /** Whether a receive is waiting for bytes: one is active, nothing has
      been transferred to it and its AsyncResult has not completed. */
  predicate ReceiveWaiting(s: Controller) {
    && s.activeReceive.Some?
    && s.activeReceive.value.transferred == 0
    && (s.activeReceive.value.asyncResult.None? ||
        !IsCompleted(s.notified, s.activeReceive.value.asyncResult.value))
  }

  /** How many buffered bytes a receive of `size` bytes takes: `size` when
      more are buffered, all of them otherwise. */
  function Take(buffered: nat, size: int): int {
    if buffered > size then size else buffered
  }

  /** ProcessDecryptedBytes: append the input to the decrypted buffer; if a
      receive is waiting, move the bytes it takes from the front of the
      buffer into its buffer at its offset (the read checks that range as
      MemoryStream.Read does, and throws otherwise), record the count as
      transferred and notify it. */
  function ProcessDecryptedSpec(s: Controller, input: Option<seq<byte>>): (Result<()>, Controller) {
    var buffered := s.decrypted + (if input.Some? then input.value else []);
    var s1 := s.(decrypted := buffered);
    if !ReceiveWaiting(s1) then (Ok(()), s1)
    else
      var rcv := s1.activeReceive.value;
      var n := Take(|buffered|, rcv.size);
      match Segment(rcv.buffer, rcv.offset, n)
      case Throws(ex) => (Throws(ex), s1)
      case Ok(_) =>
        var done := rcv.(buffer := Overwrite(rcv.buffer, rcv.offset, buffered[..n]), transferred := n);
        var s2 := s1.(decrypted := buffered[n..], activeReceive := Some(done));
        if rcv.asyncResult.Some? then
          (Ok(()), s2.(notified := s2.notified + [Notification(rcv.asyncResult.value, None)]))
        else (Ok(()), s2)
  }

  /** A waiting receive with a valid target range gets min(buffered,
      requested) bytes from the front of the decrypted buffer, in order,
      and the buffer keeps exactly the rest. */
  lemma DecryptedBytesServeReceive(s: Controller, input: Option<seq<byte>>)
    requires ReceiveWaiting(s)
    requires var rcv := s.activeReceive.value; 0 <= rcv.offset && 0 <= rcv.size && rcv.offset + rcv.size <= |rcv.buffer|
    ensures var buffered := s.decrypted + (if input.Some? then input.value else []);
      var rcv := s.activeReceive.value;
      var (r, t) := ProcessDecryptedSpec(s, input);
      var n := Min(|buffered|, rcv.size);
      && r.Ok? && t.activeReceive.Some?
      && t.activeReceive.value.transferred == n
      && t.activeReceive.value.buffer[rcv.offset..rcv.offset + n] == buffered[..n]
      && buffered[..n] + t.decrypted == buffered
      && |t.activeReceive.value.buffer| == |rcv.buffer|
  {
    var buffered := s.decrypted + (if input.Some? then input.value else []);
    var n := Take(|buffered|, s.activeReceive.value.size);
    assert buffered[..n] + buffered[n..] == buffered;
  }

  /** Without a waiting receive, the bytes are only buffered. */
  lemma DecryptedBytesBuffered(s: Controller, input: seq<byte>)
    requires !ReceiveWaiting(s)
    ensures ProcessDecryptedSpec(s, Some(input)) == (Ok(()), s.(decrypted := s.decrypted + input))
  {
  }

  /** BeginReceive: a second receive while one is active throws
      SocketException with nothing changed; otherwise a new AsyncResult
      is allocated, the receive is installed, and it is served at once
      from buffered bytes, or, with none buffered, completed when the
      socket is no longer connected. */
  function BeginReceiveSpec(s: Controller, buffer: seq<byte>, offset: int, size: int, connected: bool): (Result<Handle>, Controller) {
    if s.activeReceive.Some? then (Throws(SocketError), s)
    else
      var h := s.nextHandle;
      var s1 := s.(nextHandle := h + 1,
                   activeReceive := Some(TransferItem(buffer, offset, size, Some(h), ApplicationData, 0)));
      if |s1.decrypted| > 0 then
        var (r, t) := ProcessDecryptedSpec(s1, None);
        (if r.Throws? then Throws(r.ex) else Ok(h), t)
      else if !connected then
        (Ok(h), s1.(notified := s1.notified + [Notification(h, None)]))
      else (Ok(h), s1)
  }

  /** Only one receive at a time; a new one with bytes buffered is served
      from them immediately. */
  lemma BeginReceiveRule(s: Controller, buffer: seq<byte>, offset: int, size: int, connected: bool)
    requires forall i :: 0 <= i < |s.notified| ==> s.notified[i].handle < s.nextHandle
    ensures var (r, t) := BeginReceiveSpec(s, buffer, offset, size, connected);
      && (s.activeReceive.Some? <==> r == Throws(SocketError) && t == s)
      && (s.activeReceive.None? && |s.decrypted| > 0 &&
          0 <= offset && 0 <= size && offset + size <= |buffer| ==>
            && r == Ok(s.nextHandle)
            && t.activeReceive.Some?
            && t.activeReceive.value.transferred == Min(|s.decrypted|, size)
            && t.activeReceive.value.buffer[offset..offset + Min(|s.decrypted|, size)] == s.decrypted[..Min(|s.decrypted|, size)])
  {
    if s.activeReceive.None? && |s.decrypted| > 0 && 0 <= offset && 0 <= size && offset + size <= |buffer| {
      var h := s.nextHandle;
      var s1 := s.(nextHandle := h + 1,
                   activeReceive := Some(TransferItem(buffer, offset, size, Some(h), ApplicationData, 0)));
      assert !IsCompleted(s1.notified, h);
      DecryptedBytesServeReceive(s1, None);
    }
  }

  // ---- helpers ----

  /** SplitBytes(ref buffer, maxReturnLength): the first
      min(|buffer|, maxReturnLength) bytes and the rest; allocating an array
      of negative length throws OverflowException. */
  function SplitBytes(buffer: seq<byte>, maxReturnLength: int): (r: Result<(seq<byte>, seq<byte>)>)
    ensures r.Ok? <==> maxReturnLength >= 0
    ensures r.Throws? ==> r.ex == Overflow
    ensures r.Ok? ==> && r.value.0 + r.value.1 == buffer
                      && |r.value.0| == Min(|buffer|, maxReturnLength)
  {
    var n := if |buffer| < maxReturnLength then |buffer| else maxReturnLength;
    if n < 0 then Throws(Overflow)
    else
      assert buffer[..n] + buffer[n..] == buffer;
      Ok((buffer[..n], buffer[n..]))
  }

  /** AppendBytes: a new array of size1 + size2 bytes (the sum wrapped to
      Int32; a negative length throws OverflowException), then one
      Buffer.BlockCopy of each segment into it, the first at 0 and the
      second at size1, each throwing as BlockCopyCheck says. */
  function AppendBytes(buffer1: seq<byte>, offset1: int, size1: int,
                       buffer2: seq<byte>, offset2: int, size2: int): (r: Result<seq<byte>>)
    requires IsInt32(offset1) && IsInt32(size1) && IsInt32(offset2) && IsInt32(size2)
    ensures r.Ok? <==> && 0 <= offset1 && 0 <= size1 && offset1 + size1 <= |buffer1|
                       && 0 <= offset2 && 0 <= size2 && offset2 + size2 <= |buffer2|
                       && size1 + size2 < 0x8000_0000
    ensures r.Ok? ==> r.value == buffer1[offset1..offset1 + size1] + buffer2[offset2..offset2 + size2]
    ensures r.Throws? ==> r.ex == Overflow || r.ex == ArgumentOutOfRange || r.ex == Argument
    ensures Wrap32(size1 + size2) < 0 ==> r == Throws(Overflow)
    ensures 0 <= size1 && 0 <= size2 && 0x8000_0000 <= size1 + size2 ==> r == Throws(Overflow)
    ensures 0 <= Wrap32(size1 + size2) && (offset1 < 0 || size1 < 0) ==> r == Throws(ArgumentOutOfRange)
    ensures 0 <= offset1 && 0 <= size1 + size2 && size2 < 0 ==> r == Throws(Argument)
  {
    var total := Wrap32(size1 + size2);
    if total < 0 then Throws(Overflow)
    else match BlockCopyCheck(|buffer1|, offset1, total, 0, size1)
      case Some(ex) => Throws(ex)
      case None =>
        match BlockCopyCheck(|buffer2|, offset2, total, size1, size2)
        case Some(ex) => Throws(ex)
        case None => Ok(buffer1[offset1..offset1 + size1] + buffer2[offset2..offset2 + size2])
  }

  /** A negative second size shrinks the new array below the first
      segment, so the first copy already throws ArgumentException. */
  lemma AppendBytesShortDestination()
    ensures AppendBytes([1, 2], 0, 2, [], 0, -1) == Throws(Argument)
  {
  }

  /** FindIndex: the index of the first item whose AsyncResult is `ar`,
      or -1. */
  method FindIndex(ar: Option<Handle>, list: seq<TransferItem>) returns (r: int)
    ensures -1 <= r < |list|
    ensures r == -1 <==> forall i :: 0 <= i < |list| ==> list[i].asyncResult != ar
    ensures r >= 0 ==> list[r].asyncResult == ar && forall i :: 0 <= i < r ==> list[i].asyncResult != ar
  {
    for i := 0 to |list|
      invariant forall j :: 0 <= j < i ==> list[j].asyncResult != ar
    {
      if list[i].asyncResult == ar {
        return i;
      }
    }
    return -1;
  }

  // ---- the controller ----

  class SocketController {
    var ToSendList: seq<TransferItem>
    var SentList: seq<TransferItem>
    var ActiveSend: Option<TransferItem>
    var ActiveReceive: Option<TransferItem>
    var IsDisposed: bool
    var IsSending: bool
    var IsShuttingDown: bool
    var DecryptedBuffer: seq<byte>
    var Record: RecordLayer
    var Notified: seq<Notification>
    var SocketSends: seq<SocketSend>
    var NextHandle: Handle
    const Encrypt: Encryptor

    function Snapshot(): Controller
      reads this
    {
      Controller(ToSendList, SentList, ActiveSend, ActiveReceive, IsDisposed, IsSending,
                 IsShuttingDown, DecryptedBuffer, Record, Notified, SocketSends, NextHandle)
    }

    /** The state the constructor sets up (lines 75-83): nothing queued,
        sent or active, no record layer yet. */
    constructor (encrypt: Encryptor)
      ensures Snapshot() == Controller([], [], None, None, false, false, false, [], NoRecordLayer, [], [], 0)
      ensures Encrypt == encrypt && Valid(Snapshot())
    {
      ToSendList, SentList := [], [];
      ActiveSend, ActiveReceive := None, None;
      IsDisposed, IsSending, IsShuttingDown := false, false, false;
      DecryptedBuffer := [];
      Record := NoRecordLayer;
      Notified, SocketSends := [], [];
      NextHandle := 0;
      Encrypt := encrypt;
    }

    method ResumeSending()
      modifies this
      ensures Snapshot() == ResumeSendingSpec(old(Snapshot()), Encrypt)
    {
      if IsSending {
        return;
      }
      if |ToSendList| == 0 {
        return;
      }
      if (Record.NoRecordLayer? && ToSendList[0].kind == ApplicationData)
         || (Record.Layer? && Record.negotiating && ToSendList[0].kind == ApplicationData)
      {
        return;
      }
      var item := ToSendList[0];
      ToSendList := ToSendList[1..];
      IsSending := true;
      if item.kind == ApplicationData {
        var enc := Encrypt(item.buffer, item.offset, item.size);
        item := item.(buffer := enc, offset := 0, size := |enc|);
      }
      ActiveSend := Some(item);
      SocketSends := SocketSends + [SocketSend(item.buffer, item.offset, item.size)];
    }

    /** The internal BeginSend (protocol or application data, with the
        caller's AsyncResult or none). */
    method BeginSendItem(buffer: seq<byte>, offset: int, size: int, asyncResult: Option<Handle>, kind: DataType)
      returns (r: Result<Option<Handle>>)
      modifies this
      ensures var spec := BeginSendSpec(old(Snapshot()), buffer, offset, size, asyncResult, kind, Encrypt);
        && (spec.Throws? ==> r == Throws(spec.ex) && Snapshot() == old(Snapshot()))
        && (spec.Ok? ==> r == Ok(asyncResult) && Snapshot() == spec.value)
    {
      if kind == ApplicationData && !(Record.Layer? && !Record.negotiating) {
        return Throws(SslError);
      }
      var item := TransferItem(buffer, offset, size, asyncResult, kind, 0);
      if kind == ProtocolData {
        ToSendList := [item] + ToSendList;
      } else {
        ToSendList := ToSendList + [item];
      }
      ResumeSending();
      return Ok(asyncResult);
    }

    /** The public BeginSend, for application data. */
    method BeginSend(buffer: seq<byte>, offset: int, size: int) returns (r: Result<Handle>)
      modifies this
      ensures (r, Snapshot()) == PublicBeginSendSpec(old(Snapshot()), buffer, offset, size, Encrypt)
    {
      if IsDisposed {
        return Throws(ObjectDisposed);
      }
      if IsShuttingDown {
        return Throws(SocketError);
      }
      var h := NextHandle;
      NextHandle := NextHandle + 1;
      var res := BeginSendItem(buffer, offset, size, Some(h), ApplicationData);
      if res.Throws? {
        return Throws(res.ex);
      }
      return Ok(h);
    }

    method OnSent(sent: int)
      requires IsDisposed || ActiveSend.Some?
      modifies this
      ensures Snapshot() == OnSentSpec(old(Snapshot()), sent, Encrypt)
    {
      if IsDisposed {
        return;
      }
      var a := ActiveSend.value;
      a := a.(transferred := a.transferred + sent);
      ActiveSend := Some(a);
      if a.transferred != a.size {
        SocketSends := SocketSends + [SocketSend(a.buffer, a.offset + a.transferred, a.size - a.transferred)];
        return;
      }
      IsSending := false;
      if a.asyncResult.Some? {
        SentList := SentList + [a];
        Notified := Notified + [Notification(a.asyncResult.value, None)];
      }
      ghost var s2 := old(Snapshot()).(activeSend := Some(a), isSending := false);
      assert Snapshot() == if a.asyncResult.Some? then
        s2.(sent := s2.sent + [a], notified := s2.notified + [Notification(a.asyncResult.value, None)])
        else s2;
      if IsShuttingDown && (|ToSendList| == 0 || ToSendList[0].kind == ApplicationData) {
        CloseConnection(None);
      } else {
        ResumeSending();
      }
    }

    /** CloseConnection, with the drain loop's Notify guarded against a
        queued item without an AsyncResult. */
    method CloseConnection(e: Option<Exception>)
      modifies this
      ensures Snapshot() == CloseSpec(old(Snapshot()), e)
    {
      if IsDisposed {
        return;
      }
      FailActiveSend(e);
      DrainQueue(if e.Some? then e.value else SslError);
      FailReceive(e);
    }

    /** The start of CloseConnection: mark the controller disposed and fail
        the active send when it has an AsyncResult. */
    method FailActiveSend(e: Option<Exception>)
      modifies this
      ensures Snapshot() == CloseStart(old(Snapshot()), e)
    {
      IsDisposed := true;
      if ActiveSend.Some? && ActiveSend.value.asyncResult.Some? {
        SentList := SentList + [ActiveSend.value];
        Notified := Notified + [Notification(ActiveSend.value.asyncResult.value, e)];
      }
    }

    /** The drain loop and the Clear of the queue. */
    method DrainQueue(f: Exception)
      modifies this
      ensures Snapshot() == CloseDrain(old(Snapshot()), f)
    {
      DrainToSendList(f);
      ToSendList := [];
    }

    /** The end of CloseConnection: fail a pending receive that has an
        AsyncResult. */
    method FailReceive(e: Option<Exception>)
      modifies this
      ensures Snapshot() == CloseReceive(old(Snapshot()), e)
    {
      if ActiveReceive.Some? && ActiveReceive.value.asyncResult.Some? {
        Notified := Notified + [Notification(ActiveReceive.value.asyncResult.value, e)];
      }
    }

    /** The drain loop of CloseConnection: each queued item in turn becomes
        the active send, is added to the sent list and, when it has an
        AsyncResult, is notified with `f`. */
    method DrainToSendList(f: Exception)
      modifies this`ActiveSend, this`SentList, this`Notified
      ensures ActiveSend == if |ToSendList| > 0 then Some(ToSendList[|ToSendList| - 1]) else old(ActiveSend)
      ensures SentList == old(SentList) + ToSendList
      ensures Notified == old(Notified) + DrainNotices(ToSendList, f)
    {
      var q := ToSendList;
      for i := 0 to |q|
        invariant i > 0 ==> ActiveSend == Some(q[i - 1])
        invariant i == 0 ==> ActiveSend == old(ActiveSend)
        invariant SentList == old(SentList) + q[..i]
        invariant Notified == old(Notified) + DrainNotices(q[..i], f)
      {
        var item := q[i];
        ActiveSend := Some(item);
        SentList := SentList + [item];
        DrainNoticesPrefix(q, i, f);
        if item.asyncResult.Some? {
          Notified := Notified + [Notification(item.asyncResult.value, Some(f))];
        }
      }
      assert q[..|q|] == q;
    }

    method Dispose()
      modifies this
      ensures Snapshot() == CloseSpec(old(Snapshot()), None)
    {
      CloseConnection(None);
    }

    /** QueueRenegotiate, given what the record layer's GetControlBytes
        returned: a renegotiation request is queued as protocol data with
        no AsyncResult; with no record layer the call throws
        NullReferenceException. */
    method QueueRenegotiate(negotiate: Option<seq<byte>>) returns (r: Result<()>)
      modifies this
      ensures old(Record).NoRecordLayer? ==> r == Throws(NullReference) && Snapshot() == old(Snapshot())
      ensures old(Record).Layer? && negotiate.None? ==> r == Ok(()) && Snapshot() == old(Snapshot())
      ensures old(Record).Layer? && negotiate.Some? ==>
                r == Ok(()) &&
                Snapshot() == BeginSendSpec(old(Snapshot()), negotiate.value, 0, |negotiate.value|, None, ProtocolData, Encrypt).value
    {
      if Record.NoRecordLayer? {
        return Throws(NullReference);
      }
      if negotiate.Some? {
        var _ := BeginSendItem(negotiate.value, 0, |negotiate.value|, None, ProtocolData);
      }
      return Ok(());
    }

    method ProcessDecryptedBytes(input: Option<seq<byte>>) returns (r: Result<()>)
      modifies this
      ensures (r, Snapshot()) == ProcessDecryptedSpec(old(Snapshot()), input)
    {
      if input.Some? {
        DecryptedBuffer := DecryptedBuffer + input.value;
      }
      assert DecryptedBuffer == old(DecryptedBuffer) + (if input.Some? then input.value else []);
      if ActiveReceive.Some? && ActiveReceive.value.transferred == 0 &&
         (ActiveReceive.value.asyncResult.None? || !IsCompleted(Notified, ActiveReceive.value.asyncResult.value))
      {
        var rcv := ActiveReceive.value;
        var n := if |DecryptedBuffer| > rcv.size then rcv.size else |DecryptedBuffer|;
        var check := Segment(rcv.buffer, rcv.offset, n);
        if check.Throws? {
          return Throws(check.ex);
        }
        rcv := rcv.(buffer := Overwrite(rcv.buffer, rcv.offset, DecryptedBuffer[..n]), transferred := n);
        DecryptedBuffer := DecryptedBuffer[n..];
        ActiveReceive := Some(rcv);
        if rcv.asyncResult.Some? {
          Notified := Notified + [Notification(rcv.asyncResult.value, None)];
        }
      }
      return Ok(());
    }

    /** BeginReceive, given whether the socket is still connected. */
    method BeginReceive(buffer: seq<byte>, offset: int, size: int, connected: bool) returns (r: Result<Handle>)
      modifies this
      ensures (r, Snapshot()) == BeginReceiveSpec(old(Snapshot()), buffer, offset, size, connected)
    {
      if ActiveReceive.Some? {
        return Throws(SocketError);
      }
      var h := NextHandle;
      NextHandle := NextHandle + 1;
      ActiveReceive := Some(TransferItem(buffer, offset, size, Some(h), ApplicationData, 0));
      if |DecryptedBuffer| > 0 {
        var res := ProcessDecryptedBytes(None);
        if res.Throws? {
          return Throws(res.ex);
        }
      } else if !connected {
        Notified := Notified + [Notification(h, None)];
      }
      return Ok(h);
    }
  }
}
