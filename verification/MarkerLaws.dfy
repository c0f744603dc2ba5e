/** What the headers mean, without their formula: a base header, what keeps one valid, and that the
    checksum byte is determined by the others. */
module MarkerLaws {
  import opened Markers

  // ---------------------------------------------------------------- SAV headers

  /** Raising a byte and the checksum together, modulo 256, keeps a header valid or invalid. */
  lemma SavByteCounts(b: seq<Byte>, k: nat)
    requires |b| == 4 && k < 3 && b[k] < 0xFF
    ensures SavHeaderValid(b, 0) <==> SavHeaderValid(b[k := b[k] + 1][3 := (b[3] as int + 1) % 0x100], 0)
  {
    var c := b[k := b[k] + 1][3 := (b[3] as int + 1) % 0x100];
    assert c[0] as int + c[1] as int + c[2] as int == b[0] as int + b[1] as int + b[2] as int + 1;
  }

  /** With no byte set the checksum is the complement of the marker's constant; for any other bytes there is
      one checksum. */
  lemma SavChecksum(b0: Byte, b1: Byte, b2: Byte) returns (b3: Byte)
    ensures SavHeaderValid([0, 0, 0, 0xC0], 0)
    ensures forall x: Byte :: SavHeaderValid([b0, b1, b2, x], 0) <==> x == b3
  {
    b3 := (b0 as int + b1 as int + b2 as int - 0x40) % 0x100;
    assert forall x: Byte :: [b0, b1, b2, x][3] == x;
  }

  // ---------------------------------------------------------------- EAV headers

  lemma EavByteCounts(c: seq<Byte>, k: nat)
    requires |c| == 5 && k < 4 && c[k] < 0xFF
    ensures EavHeaderValid(c, 0) <==> EavHeaderValid(c[k := c[k] + 1][4 := (c[4] as int + 1) % 0x100], 0)
  {
    var d := c[k := c[k] + 1][4 := (c[4] as int + 1) % 0x100];
    assert d[0] as int + d[1] as int + d[2] as int + d[3] as int
        == c[0] as int + c[1] as int + c[2] as int + c[3] as int + 1;
  }

  lemma EavChecksum(c0: Byte, c1: Byte, c2: Byte, c3: Byte) returns (c4: Byte)
    ensures EavHeaderValid([0, 0, 0, 0, 0xC1], 0)
    ensures forall x: Byte :: EavHeaderValid([c0, c1, c2, c3, x], 0) <==> x == c4
  {
    c4 := (c0 as int + c1 as int + c2 as int + c3 as int - 0x3F) % 0x100;
    assert forall x: Byte :: [c0, c1, c2, c3, x][4] == x;
  }

  /** A recorded SAV header, and the EAV of a 1080-line frame, which carries the line count. */
  lemma RecordedHeaders()
    ensures SavHeaderValid([0x01, 0x01, 0x01, 0xC3], 0)
    ensures EavHeaderValid([0x01, 0x00, 0x04, 0x38, 0xFE], 0) && !EavHeaderValid([0x01, 0x00, 0x04, 0x37, 0xFE], 0)
  {
  }

  // ---------------------------------------------------------------- markers

  /** A marker is these bytes, wherever they lie. */
  lemma MarkerIs(h: seq<Byte>, p: nat)
    ensures PrefixAt(h, p) <==> p + 3 <= |h| && h[p..p + 3] == [0x00, 0xFF, 0xFF]
    ensures SavAt(h, p) <==>
      p + 8 <= |h| && h[p..p + 4] == [0x00, 0xFF, 0xFF, 0xC0] && SavHeaderValid(h[p + 4..p + 8], 0)
    ensures EavAt(h, p) <==>
      p + 9 <= |h| && h[p..p + 4] == [0x00, 0xFF, 0xFF, 0xC1] && EavHeaderValid(h[p + 4..p + 9], 0)
  {
    if p + 3 <= |h| {
      var x := h[p..p + 3];
      assert x[0] == h[p] && x[1] == h[p + 1] && x[2] == h[p + 2];
    }
    if p + 4 <= |h| {
      var x := h[p..p + 4];
      assert x[0] == h[p] && x[1] == h[p + 1] && x[2] == h[p + 2] && x[3] == h[p + 3];
    }
  }
}
