/** Report receipts: the small private files that remember an accepted marker and the nonces that carried it.
    Configuration and firmware receipts share this shape; the firmware marker is a version number. */
module Receipts {
  import opened Text
  import opened Hex

  const MAX_NONCES := 128

  datatype Receipt = Receipt(epoch: string, marker: string, nonces: seq<string>)
  {
    predicate Contains(nonce: Nonce) {
      Encode(nonce) in nonces
    }

    ghost predicate Valid() {
      && 0 < |marker| <= 128 && (forall i :: 0 <= i < |marker| ==> ' ' <= marker[i] <= '~')
      && |epoch| == 64 && IsHex(epoch) && ToLower(epoch) == epoch
      && 0 < |nonces| <= MAX_NONCES && Distinct(nonces)
      && forall i :: 0 <= i < |nonces| ==> IsNonceText(nonces[i]) && ToLower(nonces[i]) == nonces[i]
    }

    /** The check before every write and after every read of a receipt file. */
    method Validate() returns (ok: bool)
      ensures ok <==> Valid()
    {
      if !(0 < |marker| <= 128) || |epoch| != 64 || |nonces| == 0 || |nonces| > MAX_NONCES {
        return false;
      }
      if !IsHex(epoch) || ToLower(epoch) != epoch {
        return false;
      }
      if exists i :: 0 <= i < |marker| && !(' ' <= marker[i] <= '~') {
        return false;
      }
      var seen: set<string> := {};
      for i := 0 to |nonces|
        invariant forall j :: 0 <= j < i ==> IsNonceText(nonces[j]) && ToLower(nonces[j]) == nonces[j]
        invariant Distinct(nonces[..i])
        invariant forall t :: t in seen <==> t in nonces[..i]
      {
        var n := nonces[i];
        if |n| != 32 || ToLower(n) != n || n in seen || !IsHex(n) {
          assert n in seen ==> exists j :: 0 <= j < i && nonces[j] == n by {
            assert n in seen ==> n in nonces[..i];
          }
          return false;
        }
        seen := seen + {n};
        assert nonces[..i + 1] == nonces[..i] + [n];
      }
      assert nonces[..|nonces|] == nonces;
      return true;
    }
  }

  const NO_RECEIPT := Receipt("", "", [])

  function NewReceipt(epoch: string, marker: string, previous: Receipt, nonce: Nonce): (r: Receipt)
    ensures r.epoch == epoch && r.marker == marker
  {
    var kept := if previous.epoch == epoch then previous.nonces else [];
    var room := if |kept| == MAX_NONCES then kept[1..] else kept;
    Receipt(epoch, marker, room + [Encode(nonce)])
  }

  /** A receipt built on a valid one, or on none, from a nonce that passed the replay check is valid again:
      its writer can refuse it only for an I/O reason. It remembers the new nonce and forgets at most the oldest. */
  lemma NewReceiptValid(epoch: string, marker: string, previous: Receipt, nonce: Nonce)
    requires previous == NO_RECEIPT || previous.Valid()
    requires !previous.Contains(nonce)
    requires |epoch| == 64 && IsHex(epoch) && ToLower(epoch) == epoch
    requires 0 < |marker| <= 128 && forall i :: 0 <= i < |marker| ==> ' ' <= marker[i] <= '~'
    ensures var next := NewReceipt(epoch, marker, previous, nonce);
      && next.Valid() && next.Contains(nonce) && next.epoch == epoch && next.marker == marker
      && (forall m: Nonce :: previous.epoch == epoch && previous.Contains(m) && !next.Contains(m) ==>
            |previous.nonces| == MAX_NONCES && previous.nonces[0] == Encode(m))
  {
    var next := NewReceipt(epoch, marker, previous, nonce);
    DecodeEncode(nonce);
    var kept := if previous.epoch == epoch then previous.nonces else [];
    var room := if |kept| == MAX_NONCES then kept[1..] else kept;
    assert next.nonces == room + [Encode(nonce)];
    forall t | t in kept
      ensures t in next.nonces || (|kept| == MAX_NONCES && t == kept[0])
    {
      var i :| 0 <= i < |kept| && kept[i] == t;
      if i > 0 || |kept| < MAX_NONCES {
        assert t in room;
      }
    }
    assert next.nonces[|room|] == Encode(nonce);
  }
}
