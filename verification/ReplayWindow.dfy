/** The GCM response replay window: a list of recently accepted nonces and a list of the nonces whose responses
    changed the adoption state, both bounded, and scoped to one key and mode. */
module ReplayWindow {
  import opened Basics
  import opened Hex
  import opened Adoption
  import opened Receipts

  /** The key and mode a window belongs to. The source keeps a digest of the key bytes; they stand for it here. */
  datatype Epoch = Epoch(key: seq<Byte>, gcm: bool)

  /** The adoption state as it is stored, with the protected nonces of its epoch. */
  datatype Stored = Stored(adoption: Adoption, nonces: seq<string>)

  function EpochOf(a: Adoption): Option<Epoch> {
    match Decode(a.authKey)
    case None => None
    case Some(key) => if |key| == 16 then Some(Epoch(key, a.useGCM)) else None
  }

  /** The simple window that the mutable one refines: two duplicate-free lists, newest last. */
  datatype Window = Window(epoch: Epoch, recent: seq<Nonce>, protected: seq<Nonce>)
  {
    predicate Contains(nonce: Nonce) {
      nonce in recent || nonce in protected
    }

    function Accept(nonce: Nonce, protect: bool): Window {
      Window(epoch, Push(recent, nonce), if protect then Push(protected, nonce) else protected)
    }

    ghost predicate Valid() {
      Bounded(recent) && Bounded(protected)
    }
  }

  function Push(order: seq<Nonce>, nonce: Nonce): seq<Nonce> {
    if nonce in order then order
    else (if |order| == MAX_NONCES then order[1..] else order) + [nonce]
  }

  ghost predicate Bounded(order: seq<Nonce>) {
    |order| <= MAX_NONCES && Distinct(order)
  }

  ghost predicate ValidNonceTexts(texts: seq<string>) {
    |texts| <= MAX_NONCES && (forall t :: t in texts ==> IsNonceText(t)) && Distinct(DecodeNonces(texts))
  }

  ghost function NewWindow(s: Stored): Option<Window> {
    match EpochOf(s.adoption)
    case None => None
    case Some(epoch) =>
      if !s.adoption.useGCM then Some(Window(epoch, [], []))
      else if ValidNonceTexts(s.nonces) then Some(Window(epoch, [], DecodeNonces(s.nonces)))
      else None
  }

  /** The window to use with a stored state: unchanged inside an epoch, rebuilt when the epoch differs. */
  ghost function Rebase(w: Window, s: Stored): Option<Window> {
    match EpochOf(s.adoption)
    case None => None
    case Some(epoch) => if w.epoch == epoch then Some(w) else NewWindow(s)
  }

  // ---- How long a nonce is remembered -----------------------------------------------------------

  lemma PushBounded(order: seq<Nonce>, nonce: Nonce)
    requires Bounded(order)
    ensures Bounded(Push(order, nonce)) && nonce in Push(order, nonce)
  {
    var next := Push(order, nonce);
    if nonce !in order {
      assert next[|next| - 1] == nonce;
    }
  }

  /** Number of entries accepted after the given one. */
  ghost predicate HasAge(order: seq<Nonce>, nonce: Nonce, age: int) {
    0 <= age < |order| && order[|order| - 1 - age] == nonce
  }

  /** A new nonce ages every other one by one; an entry is forgotten exactly at age 128. */
  lemma PushAges(order: seq<Nonce>, nonce: Nonce, other: Nonce, age: int)
    requires Bounded(order) && HasAge(order, nonce, age) && other !in order
    ensures age + 1 < MAX_NONCES ==> HasAge(Push(order, other), nonce, age + 1)
    ensures age + 1 == MAX_NONCES ==> nonce !in Push(order, other)
  {
  }

  function Replayed(history: seq<Nonce>): seq<Nonce> {
    if history == [] then [] else Push(Replayed(history[..|history| - 1]), history[|history| - 1])
  }

  function Last(history: seq<Nonce>): seq<Nonce> {
    if |history| <= MAX_NONCES then history else history[|history| - MAX_NONCES..]
  }

  /** Every nonce of a history was outside the window when it arrived, as the replay check demands. */
  ghost predicate EachNew(history: seq<Nonce>) {
    history == [] ||
    var before := history[..|history| - 1];
    EachNew(before) && history[|history| - 1] !in Last(before)
  }

  /** Then the bounded list is exactly the last 128 entries of the history. */
  lemma {:induction false} ReplayedIsLast(history: seq<Nonce>)
    requires EachNew(history)
    ensures Replayed(history) == Last(history)
  {
    if history != [] {
      var before := history[..|history| - 1];
      ReplayedIsLast(before);
      PushOnLast(before, history[|before|]);
      assert history == before + [history[|before|]];
    }
  }

  lemma PushOnLast(history: seq<Nonce>, nonce: Nonce)
    requires nonce !in Last(history)
    ensures Push(Last(history), nonce) == Last(history + [nonce])
  {
    if |history| < MAX_NONCES {
    } else {
      assert Last(history)[1..] == history[|history| - MAX_NONCES + 1..];
    }
  }

  // ---- The mutable lists ------------------------------------------------------------------------

  /** A slice with its backing array, and the membership map kept beside it. */
  class NonceList {
    var order: array<Nonce>
    var length: nat
    var seen: set<Nonce>

    ghost predicate Valid()
      reads this, order
    {
      length <= order.Length && Bounded(order[..length]) && forall n :: n in seen <==> n in order[..length]
    }

    ghost function Contents(): (c: seq<Nonce>)
      reads this, order
      requires length <= order.Length
    {
      order[..length]
    }

    constructor (capacity: nat)
      ensures Valid() && Contents() == [] && fresh(order) && order.Length == capacity
    {
      order := new Nonce[capacity](i => seq(16, j => 0));
      length, seen := 0, {};
    }

    /** A private copy with room for one more entry. */
    constructor Copy(from: NonceList)
      requires from.Valid()
      ensures Valid() && Contents() == from.Contents() && fresh(order)
    {
      var copy := new Nonce[from.length + 1](i => seq(16, j => 0));
      forall i | 0 <= i < from.length {
        copy[i] := from.order[i];
      }
      assert copy[..from.length] == from.Contents();
      order := copy;
      length, seen := from.length, from.seen;
    }

    method Append(nonce: Nonce)
      requires Valid() && nonce !in Contents() && length < MAX_NONCES
      modifies this, order
      ensures Valid() && Contents() == old(Contents()) + [nonce]
      ensures order == old(order) || fresh(order)
    {
      if length == order.Length {
        var larger := new Nonce[2 * length + 1](i => seq(16, j => 0));
        forall i | 0 <= i < length {
          larger[i] := order[i];
        }
        assert larger[..length] == order[..length];
        order := larger;
      }
      order[length] := nonce;
      length := length + 1;
      seen := seen + {nonce};
      assert order[..length] == old(Contents()) + [nonce];
    }

    method DropOldest()
      requires Valid() && length > 0
      modifies this, order
      ensures Valid() && Contents() == old(Contents())[1..] && order == old(order)
    {
      ghost var before := Contents();
      seen := seen - {order[0]};
      forall i | 0 <= i < length - 1 {
        order[i] := order[i + 1];
      }
      length := length - 1;
      assert order[..length] == before[1..];
      assert before == [before[0]] + before[1..];
    }

    /** appendBoundedNonce: a known nonce changes nothing, a full list loses its oldest entry. */
    method AppendBounded(nonce: Nonce)
      requires Valid()
      modifies this, order
      ensures Valid() && Contents() == Push(old(Contents()), nonce)
      ensures order == old(order) || fresh(order)
    {
      if nonce in seen {
        return;
      }
      if length == MAX_NONCES {
        DropOldest();
      }
      Append(nonce);
    }
  }

  class GcmReplayWindow {
    var epoch: Epoch
    var recent: NonceList
    var protected: NonceList
    ghost var Repr: set<object>

    ghost predicate Valid()
      reads this, Repr
    {
      && this in Repr && recent in Repr && protected in Repr && recent.order in Repr && protected.order in Repr
      && recent != protected && recent.order != protected.order && recent.Valid() && protected.Valid()
    }

    ghost function View(): Window
      reads this, Repr
      requires Valid()
    {
      Window(epoch, recent.Contents(), protected.Contents())
    }

    constructor (epoch: Epoch, recent: NonceList, protected: NonceList)
      ensures this.epoch == epoch && this.recent == recent && this.protected == protected
      ensures Repr == {this, recent, protected, recent.order, protected.order}
    {
      this.epoch, this.recent, this.protected := epoch, recent, protected;
      Repr := {this, recent, protected, recent.order, protected.order};
    }

    method Contains(nonce: Nonce) returns (found: bool)
      requires Valid()
      ensures found <==> View().Contains(nonce)
    {
      return nonce in recent.seen || nonce in protected.seen;
    }

    /** The result shares nothing with this window, so this window keeps its contents whatever happens to the result. */
    method WithAccepted(nonce: Nonce, protect: bool) returns (next: GcmReplayWindow)
      requires Valid()
      ensures fresh(next.Repr)
      ensures next.Valid() && next.View() == View().Accept(nonce, protect)
    {
      hide Push, Bounded;
      var recentCopy := new NonceList.Copy(recent);
      var protectedCopy := new NonceList.Copy(protected);
      recentCopy.AppendBounded(nonce);
      if protect {
        protectedCopy.AppendBounded(nonce);
      }
      next := new GcmReplayWindow(epoch, recentCopy, protectedCopy);
    }

    method EncodedProtected() returns (encoded: seq<string>)
      requires Valid()
      ensures encoded == EncodeNonces(View().protected)
    {
      encoded := [];
      for i := 0 to protected.length
        invariant |encoded| == i
        invariant forall j :: 0 <= j < i ==> encoded[j] == Encode(protected.order[j])
      {
        encoded := encoded + [Encode(protected.order[i])];
      }
    }
  }

  lemma RepeatedNonce(texts: seq<string>, i: nat, j: nat)
    requires i < j < |texts| && IsNonceText(texts[i]) && IsNonceText(texts[j]) && DecodeNonce(texts[i]) == DecodeNonce(texts[j])
    ensures !ValidNonceTexts(texts)
  {
    if forall t :: t in texts ==> IsNonceText(t) {
      assert DecodeNonces(texts)[i] == DecodeNonces(texts)[j];
    }
  }

  method NewGcmReplayWindow(s: Stored) returns (r: Option<GcmReplayWindow>)
    ensures r.Some? <==> NewWindow(s).Some?
    ensures r.Some? ==> fresh(r.value.Repr)
    ensures r.Some? ==> r.value.Valid() && r.value.View() == NewWindow(s).value
  {
    hide Decode;
    var epoch := EpochOf(s.adoption);
    if epoch.None? {
      return None;
    }
    var recent := new NonceList(0);
    var protected := new NonceList(|s.nonces|);
    if s.adoption.useGCM {
      if |s.nonces| > MAX_NONCES {
        return None;
      }
      for i := 0 to |s.nonces|
        invariant protected.Valid() && fresh(protected) && fresh(protected.order) && protected.order != recent.order
        invariant recent.Valid() && recent.Contents() == [] && fresh(recent.order)
        invariant forall j :: 0 <= j < i ==> IsNonceText(s.nonces[j])
        invariant |protected.Contents()| == i
        invariant forall j :: 0 <= j < i ==> protected.Contents()[j] == DecodeNonce(s.nonces[j])
      {
        var decoded := Decode(s.nonces[i]);
        if decoded.None? || |decoded.value| != 16 {
          assert s.nonces[i] in s.nonces && !IsNonceText(s.nonces[i]);
          return None;
        }
        if decoded.value in protected.seen {
          ghost var j :| 0 <= j < i && protected.Contents()[j] == decoded.value;
          RepeatedNonce(s.nonces, j, i);
          return None;
        }
        protected.Append(decoded.value);
      }
      assert forall t :: t in s.nonces ==> IsNonceText(t);
      assert protected.Contents() == DecodeNonces(s.nonces);
    }
    var window := new GcmReplayWindow(epoch.value, recent, protected);
    return Some(window);
  }

  /** sync and rebased: the same window inside its epoch, a new one otherwise. */
  method Rebased(w: GcmReplayWindow, s: Stored) returns (r: Option<GcmReplayWindow>)
    requires w.Valid()
    ensures r.Some? <==> Rebase(w.View(), s).Some?
    ensures r.Some? ==> r.value.Valid() && r.value.View() == Rebase(w.View(), s).value
    ensures r.Some? ==> r.value == w || fresh(r.value.Repr)
  {
    var epoch := EpochOf(s.adoption);
    if epoch.None? {
      return None;
    }
    if w.epoch == epoch.value {
      return Some(w);
    }
    r := NewGcmReplayWindow(s);
  }
}
