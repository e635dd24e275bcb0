/**
  The WebTransport error-code mapping (x/webtransport/errors.go), section 4.4 of
  draft-ietf-webtrans-http3-16: 32-bit codes go into a range of HTTP/3 codes that skips the
  reserved ones.
*/
module WebTransport {
  import opened Optional

  const First := 0x52e4a40fa8db
  const Last := 0x52e5ac983162
  const MaxCode := 0xffff_ffff

  function ToHTTPCode(n: nat): nat {
    First + n + n / 0x1e
  }

  function FromHTTPCode(h: nat): Option<nat> {
    if h < First || h > Last then None
    else if (h - 0x21) % 0x1f == 0 then None
    else
      var shifted := h - First;
      var code := shifted - shifted / 0x1f;
      if code > MaxCode then None else Some(code)
  }

  /** Codes of the form 0x1f * N + 0x21 are reserved for greasing. */
  predicate Reserved(h: nat) { h >= 0x21 && (h - 0x21) % 0x1f == 0 }

  lemma {:induction false} Shifted(n: nat)
    ensures var s := n + n / 0x1e; s / 0x1f == n / 0x1e && s % 0x1f == n % 0x1e && s - s / 0x1f == n
  {
    var q, r := n / 0x1e, n % 0x1e;
    assert n + q == 0x1f * q + r;
  }

  lemma {:induction false} ReservedShift(s: nat)
    ensures Reserved(First + s) <==> s % 0x1f == 0x1e
  {
    assert (First - 0x21) % 0x1f == 1;
  }

  lemma {:induction false} Increasing(m: nat, n: nat)
    requires m < n
    ensures ToHTTPCode(m) < ToHTTPCode(n)
  {
  }

  /** Every 32-bit code lands on a non-reserved code of the range, and comes back; the ends of the
      range are the images of the smallest and the largest code. */
  lemma {:induction false} ThereAndBack(n: nat)
    requires n <= MaxCode
    ensures First <= ToHTTPCode(n) <= Last && !Reserved(ToHTTPCode(n)) && FromHTTPCode(ToHTTPCode(n)) == Some(n)
    ensures ToHTTPCode(0) == First && ToHTTPCode(MaxCode) == Last
  {
    Shifted(n);
    ReservedShift(n + n / 0x1e);
  }

  /** Every non-reserved code of the range comes from exactly one 32-bit code; everything else is
      rejected. In particular the overflow check never fires. */
  lemma {:induction false} BackAndThere(h: nat)
    ensures FromHTTPCode(h).Some? <==> First <= h <= Last && !Reserved(h)
    ensures FromHTTPCode(h).Some? ==> FromHTTPCode(h).value <= MaxCode && ToHTTPCode(FromHTTPCode(h).value) == h
  {
    if First <= h <= Last && !Reserved(h) {
      var s := h - First;
      var q, r := s / 0x1f, s % 0x1f;
      ReservedShift(s);
      assert s - q == 0x1e * q + r && r < 0x1e;
      assert (s - q) / 0x1e == q;
    }
  }
}
