/** One block of a JPEG scan worked through by hand. */
module JpegExample {
  import opened BitStreams
  import opened CanonicalCodes
  import opened JpegBits
  import opened JpegHuffman
  import opened JpegBlocks

  /** The counts of a table with codes of one and two bits only. */
  function FewCodes(one: nat, two: nat): (counts: seq<nat>)
    ensures |counts| == 17
  {
    seq(17, len requires 0 <= len => if len == 1 then one else if len == 2 then two else 0)
  }

  function Values(first: Byte, second: Byte): (values: seq<Byte>)
    ensures |values| == 256
  {
    seq(256, k requires 0 <= k => if k == 0 then first else if k == 1 then second else 0)
  }

  /** One code, 00, for differences of two bits. */
  function DcTable(): Table { Table(FewCodes(0, 1), Values(2, 0)) }

  /** The code 0 ends the block, and 10 is one zero and then a coefficient of two bits. */
  function AcTable(): Table { Table(FewCodes(1, 1), Values(0x00, 0x12)) }

  lemma {:induction false} FewLeft(counts: seq<nat>, len: nat)
    requires |counts| == 17 && 2 <= len < 17 && Left(counts, 2) >= 0 && forall i :: 2 < i < 17 ==> counts[i] == 0
    ensures Left(counts, len) >= 0
  {
    hide Left;
    if len > 2 {
      FewLeft(counts, len - 1);
      LeftStep(counts, len);
    }
  }

  lemma TablesFit()
    ensures DcTable().Shaped() && AcTable().Shaped() && Kraft(DcTable().counts) && Kraft(AcTable().counts)
    ensures First(DcTable().counts, 2) == 0 && First(AcTable().counts, 1) == 0 && First(AcTable().counts, 2) == 2
    ensures Offset(DcTable().counts, 2) == 0 && Offset(AcTable().counts, 1) == 0 && Offset(AcTable().counts, 2) == 1
  {
    hide Values;
    var dc, ac := FewCodes(0, 1), FewCodes(1, 1);
    assert Pow2(1) == 2 && Pow2(2) == 4;
    assert First(dc, 1) == 0 && First(ac, 1) == 0;
    assert Offset(dc, 1) == 0 && Offset(ac, 1) == 0;
    forall len | 1 <= len < 17 ensures Left(dc, len) >= 0 && Left(ac, len) >= 0 {
      if len >= 2 {
        FewLeft(dc, len);
        FewLeft(ac, len);
      }
    }
  }

  lemma DcCode()
    ensures DcTable().Shaped() && DcTable().HasCode(2) && DcTable().Code(2) == [false, false]
  {
    hide First, Offset, Kraft, High;
    TablesFit();
    var t := DcTable();
    assert t.Means(2, 0, 2);
    forall len: nat, j: nat | t.Means(len, j, 2) ensures len == 2 && j == 0 {
    }
    assert High(0, 2) == [false, false] by { SmallCodes(); }
  }

  lemma AcCodes()
    ensures AcTable().Shaped() && AcTable().HasCode(0) && AcTable().Code(0) == [false]
    ensures AcTable().HasCode(0x12) && AcTable().Code(0x12) == [true, false]
  {
    hide First, Offset, Kraft, High;
    TablesFit();
    var t := AcTable();
    assert t.Means(1, 0, 0) && t.Means(2, 0, 0x12);
    forall len: nat, j: nat | t.Means(len, j, 0) ensures len == 1 && j == 0 {
    }
    forall len: nat, j: nat | t.Means(len, j, 0x12) ensures len == 2 && j == 0 {
    }
    assert High(0, 1) == [false] && High(2, 2) == [true, false] by { SmallCodes(); }
  }

  lemma SmallCodes()
    ensures High(0, 2) == [false, false] && High(0, 1) == [false] && High(2, 2) == [true, false]
    ensures High(3, 2) == [true, true] && High(1, 2) == [false, true] && High(0, 0) == []
  {
  }

  lemma Sizes()
    ensures Category(3) == 2 && Category(-2) == 2 && Category(0) == 0
    ensures Magnitude(3) == 3 && Magnitude(-2) == 1 && Magnitude(0) == 0
  {
    assert Pow2(2) == 4;
  }

  function Coefficients(): (coefs: seq<int>)
    ensures |coefs| == 64
  {
    seq(64, k requires 0 <= k => if k == 0 then 10 else if k == 2 then -2 else 0)
  }

  lemma AcPart()
    ensures AcTable().Shaped() && AcBits(AcTable(), Coefficients(), 1) == Some([true, false, false, true, false])
  {
    hide AcBits, Table.Code, Table.HasCode, Category, Magnitude, High, AcTable;
    AcCodes();
    SmallCodes();
    Sizes();
    var t, coefs := AcTable(), Coefficients();
    AcBitsUnfold(t, coefs, 1);
    AcBitsUnfold(t, coefs, 3);
    assert Run(coefs, 1) == 1 && Run(coefs, 3) == 61;
    assert AcBits(t, coefs, 3) == Coded(t, 0, 0) == Some([false] + []);
    assert Coded(t, 0x12, -2) == Some([true, false] + [false, true]);
    assert [true, false] + [false, true] + ([false] + []) == [true, false, false, true, false];
  }

  /** Two bytes and the block that they hold after one whose first coefficient was 7: the difference 3,
      a zero, the coefficient -2 and nothing more, in nine bits. */
  lemma JpegExample()
    ensures DcTable().Shaped() && AcTable().Shaped()
    ensures BlockFrom(DcTable(), AcTable(), 7, MsbBits([0x39, 0x00]), 0) == Some((Coefficients(), 9))
  {
    hide AcBits, Table.Code, Table.HasCode, Category, Magnitude, High, AcTable, DcTable, BlockFrom, Kraft;
    TablesFit();
    DcCode();
    SmallCodes();
    Sizes();
    AcPart();
    var coefs := Coefficients();
    assert coefs[0] - 7 == 3;
    assert Coded(DcTable(), 2, 3) == Some([false, false] + [true, true]);
    var bits := [false, false] + [true, true] + [true, false, false, true, false];
    assert BlockBits(DcTable(), AcTable(), 7, coefs) == Some(bits);
    ExampleBits();
    BlockRoundTrip(DcTable(), AcTable(), 7, coefs, MsbBits([0x39, 0x00]), 0);
  }

  lemma ExampleBits()
    ensures At(MsbBits([0x39, 0x00]), 0, [false, false] + [true, true] + [true, false, false, true, false])
  {
    FirstByte();
    SecondByte();
    hide High;
    var bytes: seq<Byte> := [0x39, 0x00];
    assert bytes[1..] == [0x00] && bytes[1..][1..] == [];
    assert MsbBits(bytes) == High(0x39, 8) + (High(0, 8) + []);
    var all, bits := MsbBits(bytes), [false, false] + [true, true] + [true, false, false, true, false];
    assert all[0..9] == bits;
  }

  lemma FirstByte()
    ensures High(0x39, 8) == [false, false, true, true, true, false, false, true]
  {
    assert High(3, 4) == [false, false, true, true];
    assert High(0x39, 8) == High(3, 4) + [true] + [false] + [false] + [true];
  }

  lemma SecondByte()
    ensures High(0, 8)[0] == false
  {
    HighOfZero(8);
  }
}
