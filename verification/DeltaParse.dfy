/** The cursor of the table-valued function delta_parse (ext/fossildelta.c:767-775, 842-849, 865-904, 956-1003),
  * a second decoder, its agreement with delta_apply, and when a query ends. */
module DeltaParse {
  import Wrappers
  import opened Bytes
  import opened Base64
  import opened DeltaChecksum
  import opened DeltaFormat

  datatype Op = SIZE | COPY | INSERT | CHECKSUM | ERROR | EOF

  /** The fields of the cursor that describe its current row; iNext is a C int. */
  datatype Row = Row(iCursor: nat, eOp: Op, a1: nat, a2: nat, iNext: int)

  /** A difference of pointers assigned to an int. */
  function CInt(n: nat): int {
    AsInt32(U32(n))
  }

  /** The row at offset `p` of the delta; an INSERT row gives the offset of its text in a2. */
  function RowAt(z: bytes, p: nat, a2: nat): (row: Row)
    requires p <= |z|
    ensures row.iCursor == p && row.a1 < 0x1_0000_0000 && (row.eOp == COPY ==> row.a2 < 0x1_0000_0000)
    ensures row.eOp in {CHECKSUM, ERROR, EOF} ==> row.iNext == |z|
  {
    var (a1, q) := GetInt(z, p);
    if At(z, q) == '@' as int then
      var (ofst, r) := GetInt(z, q + 1);
      Row(p, COPY, a1, ofst, CInt(r + 1))
    else if At(z, q) == ':' as int then Row(p, INSERT, a1, q + 1, CInt(q + 1 + a1))
    else if At(z, q) == ';' as int then Row(p, CHECKSUM, a1, a2, |z|)
    else if p == |z| then Row(p, EOF, a1, a2, |z|)
    else Row(p, ERROR, a1, a2, |z|)
  }

  /** The row a rewound cursor starts on. */
  function FirstRow(z: bytes): (row: Row)
    ensures 0 <= row.iNext <= |z|
  {
    var (a1, p) := GetInt(z, 0);
    if z == [] then Row(0, ERROR, 0, 0, 0)
    else if At(z, p) != '\n' as int then Row(0, ERROR, 0, 0, |z|)
    else Row(0, SIZE, a1, 0, p + 1)
  }

  /** The text of an INSERT row lies inside the delta. */
  predicate TextFits(z: bytes, row: Row) {
    row.a2 <= |z| && row.a1 <= |z| - row.a2
  }

  /** Where the next row is: behind a copy command, which may run into the end of the delta; behind the text of an
    * INSERT that fits; or wherever the wrapped position of one that does not fit is, even in front of the row. */
  lemma RowBounds(z: bytes, p: nat, a2: nat)
    requires p <= |z| < 0x8000_0000
    ensures var row := RowAt(z, p, a2);
      && (row.eOp == EOF <==> p == |z|) && row.eOp != SIZE
      && (row.eOp == COPY && 0 <= row.iNext <= |z| ==> p < row.iNext)
      && (row.eOp == INSERT ==>
            && p < row.a2 <= |z|
            && (TextFits(z, row) ==> row.iNext == row.a2 + row.a1)
            && (!TextFits(z, row) && 0 <= row.iNext <= |z| ==> row.iNext == row.a2 + row.a1 - 0x1_0000_0000 < row.a2))
  {
    hide GetInt, CInt;
    var (a1, q) := GetInt(z, p);
    if p == |z| {
      NulIsNoDigit(z, p);
    } else if At(z, q) == '@' as int {
      CopyEnd(z, GetInt(z, q + 1).1);
    } else if At(z, q) == ':' as int {
      TextEnd(z, q + 1, a1);
    }
  }

  lemma CopyEnd(z: bytes, r: nat)
    requires r <= |z| < 0x8000_0000
    ensures if r < |z| then CInt(r + 1) == r + 1 else !(0 <= CInt(r + 1) <= |z|)
  {
  }

  lemma TextEnd(z: bytes, a2: nat, a1: nat)
    requires a2 <= |z| < 0x8000_0000 && a1 < 0x1_0000_0000
    ensures a1 <= |z| - a2 ==> CInt(a2 + a1) == a2 + a1
    ensures a1 > |z| - a2 && 0 <= CInt(a2 + a1) <= |z| ==> CInt(a2 + a1) == a2 + a1 - 0x1_0000_0000 < a2
  {
  }

  lemma NulIsNoDigit(z: bytes, p: nat)
    requires At(z, p) == 0
    ensures GetInt(z, p) == (0, p)
  {
  }

  /** A checksum row takes the field a2 over from the row before it, where it means nothing. */
  lemma StaleArgument(z: bytes, p: nat, a2: nat)
    requires p <= |z|
    ensures var row, row0 := RowAt(z, p, a2), RowAt(z, p, 0);
      && (row.eOp, row.a1, row.iNext) == (row0.eOp, row0.a1, row0.iNext)
      && (row.eOp in {COPY, INSERT} ==> row == row0)
  {
  }

  // ---------- Reading the rows of a whole delta ----------

  /** What the rows from offset `p` on say: the bytes they produce from the source and the value of the
    * checksum row that closes them, directly before the end-of-rows mark. Bad if a row is an ERROR, points
    * outside source or delta, or is missing. */
  datatype Reading = Text(text: bytes, cksum: nat) | Bad

  function Prepend(s: bytes, r: Reading): Reading {
    match r
    case Text(text, cksum) => Text(s + text, cksum)
    case Bad => Bad
  }

  /** A COPY row that points inside the source and ends inside the delta. */
  predicate CopyFits(src: bytes, z: bytes, row: Row) {
    0 < row.iNext <= |z| && row.a2 + row.a1 <= |src|
  }

  function ReadRows(src: bytes, z: bytes, p: nat): Reading
    requires p <= |z| < 0x8000_0000
    decreases |z| - p
  {
    var row := RowAt(z, p, 0);
    RowBounds(z, p, 0);
    match row.eOp
    case COPY =>
      if CopyFits(src, z, row) then Prepend(src[row.a2..row.a2 + row.a1], ReadRows(src, z, row.iNext)) else Bad
    case INSERT =>
      if TextFits(z, row) then Prepend(z[row.a2..row.iNext], ReadRows(src, z, row.iNext)) else Bad
    case CHECKSUM => Text([], row.a1)
    case _ => Bad
  }

  /** Every copy row from offset `p` on ends with the comma that delta_apply insists on and the cursor skips. */
  predicate Commas(z: bytes, p: nat)
    requires p <= |z| < 0x8000_0000
    decreases |z| - p
  {
    var row := RowAt(z, p, 0);
    RowBounds(z, p, 0);
    match row.eOp
    case COPY => 0 < row.iNext <= |z| ==> z[row.iNext - 1] == ',' as int && Commas(z, row.iNext)
    case INSERT => TextFits(z, row) ==> Commas(z, row.iNext)
    case _ => true
  }

  /** Both decoders read the same number and the same operator at `p`. */
  lemma SameCommand(test: bool, src: bytes, z: bytes, p: nat, limit: nat, out: bytes)
    requires p <= |z| < 0x8000_0000 && |out| <= limit < 0x1_0000_0000
    ensures var row := RowAt(z, p, 0);
      var r := ApplyFrom(test, src, z, p, limit, out);
      match row.eOp
      case COPY =>
        var inside := 0 < row.iNext <= |z|;
        r == if inside && z[row.iNext - 1] != ',' as int then Corrupt
             else if U32(|out| + row.a1) > limit || U32(row.a2 + row.a1) > |src| then Corrupt
             else if |out| + row.a1 > limit || row.a2 + row.a1 > |src| then Undefined
             else if !inside then Corrupt
             else ApplyFrom(test, src, z, row.iNext, limit, out + src[row.a2..row.a2 + row.a1])
      case INSERT =>
        row.a2 <= |z| && r == ApplyInsert(test, src, z, row.a2, limit, out, row.a1)
      case CHECKSUM => r == ApplyEnd(test, limit, out, row.a1)
      case _ => r == Corrupt
  {
    hide GetInt, ApplyFrom, ApplyCopy, ApplyInsert, ApplyEnd, U32, AsInt32, CInt, RowAt;
    RowShape(z, p);
    if p >= |z| || z[p] == 0 {
      NulIsNoDigit(z, p);
      NulEnds(test, src, z, p, limit, out);
    } else {
      UnfoldCommand(test, src, z, p, limit, out);
      var (cnt, q) := GetInt(z, p);
      if At(z, q) == '@' as int {
        SameCopy(test, src, z, q + 1, limit, out, cnt);
      }
    }
  }

  /** The operator of a row is the byte behind its first number. */
  lemma RowShape(z: bytes, p: nat)
    requires p <= |z|
    ensures var row, (a1, q) := RowAt(z, p, 0), GetInt(z, p);
      && row.eOp != SIZE
      && (row.eOp == COPY <==> At(z, q) == '@' as int)
      && (row.eOp == INSERT <==> At(z, q) == ':' as int)
      && (row.eOp == CHECKSUM <==> At(z, q) == ';' as int)
      && row.a1 == a1
      && (row.eOp == COPY ==>
            q < |z| && var (ofst, r) := GetInt(z, q + 1); row.a2 == ofst && row.iNext == CInt(r + 1))
      && (row.eOp == INSERT ==> q < |z| && row.a2 == q + 1)
  {
    hide GetInt;
  }

  lemma NulEnds(test: bool, src: bytes, z: bytes, p: nat, limit: nat, out: bytes)
    requires At(z, p) == 0 && |out| <= limit < 0x1_0000_0000
    ensures ApplyFrom(test, src, z, p, limit, out) == Corrupt
  {
  }

  lemma SameCopy(test: bool, src: bytes, z: bytes, q: nat, limit: nat, out: bytes, cnt: nat)
    requires q <= |z| < 0x8000_0000 && |out| <= limit < 0x1_0000_0000
    ensures var (ofst, r) := GetInt(z, q);
      var next := CInt(r + 1);
      var inside := 0 < next <= |z|;
      ApplyCopy(test, src, z, q, limit, out, cnt)
      == if inside && z[next - 1] != ',' as int then Corrupt
         else if U32(|out| + cnt) > limit || U32(ofst + cnt) > |src| then Corrupt
         else if |out| + cnt > limit || ofst + cnt > |src| then Undefined
         else if !inside then Corrupt
         else ApplyFrom(test, src, z, next, limit, out + src[ofst..ofst + cnt])
  {
    var (ofst, r) := GetInt(z, q);
    CopyEnd(z, r);
    hide GetInt, U32, CInt;
    if r >= |z| && |out| + cnt <= limit && ofst + cnt <= |src| {
      NulEnds(test, src, z, r + 1, limit, out + src[ofst..ofst + cnt]);
    }
  }

  /** delta_apply accepts what the cursor reads as a text of the right length with all commas in place,
    * and nothing else. */
  ghost predicate Agree(test: bool, src: bytes, z: bytes, p: nat, limit: nat, out: bytes)
    requires p <= |z| < 0x8000_0000 && |out| <= limit < 0x1_0000_0000
  {
    var read := ReadRows(src, z, p);
    var r := ApplyFrom(test, src, z, p, limit, out);
    && (r.Done? <==> read.Text? && Commas(z, p) && |out| + |read.text| == limit &&
                     (test ==> read.cksum == Checksum(out + read.text)))
    && (r.Done? ==> r.out == out + read.text)
  }

  /** One copy or insert row that produces `s` and leads from p to p'. */
  lemma AgreeStep(test: bool, src: bytes, z: bytes, p: nat, p': nat, limit: nat, out: bytes, s: bytes)
    requires p < p' <= |z| < 0x8000_0000 && |out| + |s| <= limit < 0x1_0000_0000
    requires Agree(test, src, z, p', limit, out + s)
    requires ReadRows(src, z, p) == Prepend(s, ReadRows(src, z, p'))
    requires Commas(z, p) == Commas(z, p')
    requires ApplyFrom(test, src, z, p, limit, out) == ApplyFrom(test, src, z, p', limit, out + s)
    ensures Agree(test, src, z, p, limit, out)
  {
    hide ApplyFrom, ReadRows, Commas, Checksum;
    var rest := ReadRows(src, z, p');
    if rest.Text? {
      Assoc(out, s, rest.text);
    }
  }

  lemma {:induction false} DecodersAgreeFrom(test: bool, src: bytes, z: bytes, p: nat, limit: nat, out: bytes)
    requires p <= |z| < 0x8000_0000 && |out| <= limit < 0x1_0000_0000 && |src| < 0x1_0000_0000
    ensures Agree(test, src, z, p, limit, out)
    decreases |z| - p
  {
    hide Checksum, ApplyFrom, RowAt, U32;
    var row := RowAt(z, p, 0);
    SameCommand(test, src, z, p, limit, out);
    RowBounds(z, p, 0);
    match row.eOp {
      case COPY =>
        if CopyFits(src, z, row) && z[row.iNext - 1] == ',' as int && |out| + row.a1 <= limit {
          var s := src[row.a2..row.a2 + row.a1];
          U32Small(|out| + row.a1);
          U32Small(row.a2 + row.a1);
          DecodersAgreeFrom(test, src, z, row.iNext, limit, out + s);
          AgreeStep(test, src, z, p, row.iNext, limit, out, s);
        }
      case INSERT =>
        if TextFits(z, row) && |out| + row.a1 <= limit {
          var s := z[row.a2..row.iNext];
          U32Small(|out| + row.a1);
          DecodersAgreeFrom(test, src, z, row.iNext, limit, out + s);
          AgreeStep(test, src, z, p, row.iNext, limit, out, s);
        }
      case CHECKSUM =>
        assert out + [] == out;
      case _ =>
    }
  }

  /** delta_apply accepts a delta exactly when the cursor starts with a size row below 2^31, goes on with copy
    * and insert rows that stay inside source and delta and produce that many bytes, ends with a checksum row
    * (of the right value, if checksums are tested) directly before the end of rows, and every copy row is
    * closed by a comma; then its output is what the rows say. */
  lemma DecodersAgree(test: bool, src: bytes, z: bytes)
    requires |src| < 0x1_0000_0000 && |z| < 0x8000_0000
    ensures var first := FirstRow(z);
      var read := ReadRows(src, z, first.iNext);
      var r := Apply(test, src, z);
      && (r.Done? <==> first.eOp == SIZE && first.a1 < 0x8000_0000 && read.Text? && Commas(z, first.iNext) &&
                       |read.text| == first.a1 && (test ==> read.cksum == Checksum(read.text)))
      && (r.Done? ==> r.out == read.text)
  {
    hide Checksum, ApplyFrom, RowAt, ReadRows, Commas, GetInt;
    var first := FirstRow(z);
    if z == [] {
      NulIsNoDigit(z, 0);
    } else if first.eOp == SIZE {
      DecodersAgreeFrom(test, src, z, first.iNext, first.a1, []);
      var read := ReadRows(src, z, first.iNext);
      if read.Text? {
        assert [] + read.text == read.text;
      }
    }
  }

  /** A space in place of the comma: the cursor reads this delta without complaint, delta_apply does not
    * accept it. */
  lemma CommaMatters(src: bytes, z: bytes)
    requires |src| == 1
    requires |z| == 8 && z[0] == '1' as int && z[1] == '\n' as int
    requires z[2] == '1' as int && z[3] == '@' as int && z[4] == '0' as int && z[5] == ' ' as int
    requires z[6] == '0' as int && z[7] == ';' as int
    ensures FirstRow(z) == Row(0, SIZE, 1, 0, 2) && ReadRows(src, z, 2) == Text(src, 0)
    ensures !Apply(false, src, z).Done?
  {
    hide GetInt, ApplyFrom, RowAt, CInt;
    OneDigit(z, 0);
    SmallCopy(z, 2);
    OneDigit(z, 6);
    RowShape(z, 6);
    assert ReadRows(src, z, 6) == Text([], 0);
    assert src[0..1] + [] == src;
    DecodersAgree(false, src, z);
  }

  lemma OneDigit(z: bytes, p: nat)
    requires DigitValue(At(z, p)) >= 0 && DigitValue(At(z, p + 1)) < 0
    ensures GetInt(z, p) == (DigitValue(At(z, p)), p + 1)
  {
    GetIntStep(z, p, 0);
  }

  /** A copy command with one digit each for count and offset. */
  lemma SmallCopy(z: bytes, p: nat)
    requires p + 4 <= |z| < 0x8000_0000 && DigitValue(z[p]) >= 0 && z[p + 1] == '@' as int
    requires DigitValue(z[p + 2]) >= 0 && DigitValue(z[p + 3]) < 0
    ensures RowAt(z, p, 0) == Row(p, COPY, DigitValue(z[p]), DigitValue(z[p + 2]), p + 4)
  {
    OneDigit(z, p);
    OneDigit(z, p + 2);
    CopyEnd(z, p + 3);
    hide GetInt, CInt, DigitValue;
  }

  // ---------- When delta_apply copies outside its buffers ----------

  /** Some COPY row from `p` on passes the tests of its comma, of the output size and of the source length, but only
    * because offset and count together wrap around; `n` bytes have been written before. */
  predicate Overruns(src: bytes, z: bytes, p: nat, limit: nat, n: nat)
    requires p <= |z| < 0x8000_0000
    decreases |z| - p
  {
    var row := RowAt(z, p, 0);
    RowBounds(z, p, 0);
    match row.eOp
    case COPY =>
      var inside := 0 < row.iNext <= |z|;
      && (inside ==> z[row.iNext - 1] == ',' as int)
      && U32(n + row.a1) <= limit && U32(row.a2 + row.a1) <= |src|
      && (row.a2 + row.a1 >= 0x1_0000_0000 || (inside && Overruns(src, z, row.iNext, limit, n + row.a1)))
    case INSERT =>
      TextFits(z, row) && n + row.a1 <= limit && Overruns(src, z, row.iNext, limit, n + row.a1)
    case _ => false
  }

  lemma {:induction false} UndefinedFrom(test: bool, src: bytes, z: bytes, p: nat, limit: nat, out: bytes)
    requires p <= |z| < 0x8000_0000 && |src| < 0x8000_0000 && |out| <= limit < 0x8000_0000
    ensures ApplyFrom(test, src, z, p, limit, out) == Undefined <==> Overruns(src, z, p, limit, |out|)
    decreases |z| - p
  {
    hide ApplyFrom, RowAt, Checksum, U32;
    var row := RowAt(z, p, 0);
    SameCommand(test, src, z, p, limit, out);
    RowBounds(z, p, 0);
    match row.eOp {
      case COPY =>
        SumsWrap(|out|, row.a1, limit);
        SumsWrap(row.a2, row.a1, |src|);
        if CopyFits(src, z, row) && |out| + row.a1 <= limit {
          UndefinedFrom(test, src, z, row.iNext, limit, out + src[row.a2..row.a2 + row.a1]);
        }
      case INSERT =>
        SumsWrap(|out|, row.a1, limit);
        if TextFits(z, row) && |out| + row.a1 <= limit {
          UndefinedFrom(test, src, z, row.iNext, limit, out + z[row.a2..row.iNext]);
        }
      case _ =>
    }
  }

  /** What a test on a wrapped sum says about the sum itself. */
  lemma SumsWrap(x: nat, cnt: nat, bound: nat)
    requires x < 0x1_0000_0000 && cnt < 0x1_0000_0000
    ensures U32(x + cnt) == if x + cnt < 0x1_0000_0000 then x + cnt else x + cnt - 0x1_0000_0000
  {
  }

  /** delta_apply copies outside its buffers exactly if it reaches such a COPY row; INSERT rows never do it. */
  lemma UndefinedExactly(test: bool, src: bytes, z: bytes)
    requires |src| < 0x8000_0000 && |z| < 0x8000_0000
    ensures var first := FirstRow(z);
      Apply(test, src, z) == Undefined
      <==> first.eOp == SIZE && first.a1 < 0x8000_0000 && Overruns(src, z, first.iNext, first.a1, 0)
  {
    hide ApplyFrom, RowAt, Overruns, GetInt;
    var first := FirstRow(z);
    if z == [] {
      NulIsNoDigit(z, 0);
    } else if first.eOp == SIZE && first.a1 < 0x8000_0000 {
      UndefinedFrom(test, src, z, first.iNext, first.a1, []);
    }
  }

  /** A count just below 2^32. */
  lemma BigCount(z: bytes, p: nat)
    requires p + 6 <= |z| && z[p] == '3' as int && (forall k :: p < k < p + 5 ==> z[k] == '~' as int)
    requires DigitValue(z[p + 5]) >= 0 && DigitValue(At(z, p + 6)) < 0
    ensures GetInt(z, p) == (0xFFFF_FFC0 + DigitValue(z[p + 5]), p + 6)
  {
    hide DigitValue, GetIntFrom;
    ThreeAndTilde();
    GetIntStep(z, p, 0);
    GetIntStep(z, p + 1, 3);
    GetIntStep(z, p + 2, 255);
    GetIntStep(z, p + 3, 16383);
    GetIntStep(z, p + 4, 1048575);
    GetIntStep(z, p + 5, 67108863);
    GetIntEnd(z, p + 6, 0xFFFF_FFC0 + DigitValue(z[p + 5]));
  }

  lemma ThreeAndTilde()
    ensures DigitValue('3' as int) == 3 && DigitValue('~' as int) == 63
    ensures forall c: byte :: DigitValue(c) < 64
  {
  }

  lemma GetIntEnd(z: bytes, p: nat, v: nat)
    requires DigitValue(At(z, p)) < 0
    ensures GetIntFrom(z, p, v) == (v, p)
  {
  }

  /** 1\n1@3~~~~~,0; copies one byte from offset 2^32 - 1: the sum 0 passes the test, whatever the source is. */
  const OVERRUN: bytes :=
    ['1' as int, '\n' as int, '1' as int, '@' as int, '3' as int, '~' as int, '~' as int, '~' as int, '~' as int,
     '~' as int, ',' as int, '0' as int, ';' as int]

  lemma OverrunIsReached(test: bool, src: bytes)
    requires |src| < 0x8000_0000
    ensures Apply(test, src, OVERRUN) == Undefined
  {
    hide GetInt, Apply;
    var z := OVERRUN;
    OneDigit(z, 0);
    OneDigit(z, 2);
    BigCount(z, 4);
    CopyEnd(z, 10);
    hide CInt;
    assert FirstRow(z) == Row(0, SIZE, 1, 0, 2);
    assert RowAt(z, 2, 0) == Row(2, COPY, 1, 0xFFFF_FFFF, 11);
    UndefinedExactly(test, src, z);
  }

  // ---------- Where the cursor goes ----------

  /** The position after `n` calls of Next from `p` on, as long as the cursor stays inside the delta. */
  function Position(z: bytes, p: nat, n: nat): (q: Wrappers.Option<nat>)
    requires p <= |z|
    ensures q.Some? ==> q.value <= |z|
    decreases n
  {
    if n == 0 then Wrappers.Some(p)
    else
      var next := RowAt(z, p, 0).iNext;
      if 0 <= next <= |z| then Position(z, next, n - 1) else Wrappers.None
  }

  lemma PositionStep(z: bytes, p: nat, n: nat)
    requires p <= |z|
    ensures Position(z, p, 0) == Wrappers.Some(p)
    ensures var next := RowAt(z, p, 0).iNext;
      Position(z, p, n + 1) == if 0 <= next <= |z| then Position(z, next, n) else Wrappers.None
  {
  }

  /** Every one of the first `n` calls takes the cursor forward, and they end on the end-of-rows mark. */
  ghost predicate ForwardToEnd(z: bytes, p: nat, n: nat)
    requires p <= |z|
  {
    && Position(z, p, n) == Wrappers.Some(|z|)
    && forall k: nat :: k < n ==> Goes(z, p, k)
  }

  ghost predicate Goes(z: bytes, p: nat, k: nat)
    requires p <= |z|
  {
    var q, q' := Position(z, p, k), Position(z, p, k + 1);
    q.Some? && q'.Some? && q.value < q'.value
  }

  /** Every COPY row reached ends inside the delta. Every INSERT row reached has its text inside the delta, or a count
    * so close to 2^32 that the position wraps around into the row's own digits. */
  predicate Orderly(z: bytes, p: nat)
    requires p <= |z| < 0x8000_0000
    decreases |z| - p
  {
    var row := RowAt(z, p, 0);
    RowBounds(z, p, 0);
    match row.eOp
    case COPY => 0 < row.iNext <= |z| && Orderly(z, row.iNext)
    case INSERT =>
      if TextFits(z, row) then Orderly(z, row.iNext)
      else row.a1 + (row.a2 - p) > 0x1_0000_0000 && Orderly(z, row.a2 + row.a1 - 0x1_0000_0000)
    case _ => true
  }

  lemma NextIsForward(z: bytes, p: nat)
    requires p < |z| < 0x8000_0000
    ensures var row := RowAt(z, p, 0);
      Orderly(z, p) <==> p < row.iNext <= |z| && Orderly(z, row.iNext)
  {
    hide RowAt, CInt, GetInt;
    RowBounds(z, p, 0);
    BackInside(z, p);
    NextAtEnd(z);
  }

  lemma BackInside(z: bytes, p: nat)
    requires p < |z| < 0x8000_0000
    ensures var row := RowAt(z, p, 0);
      row.eOp == INSERT && row.a1 + (row.a2 - p) > 0x1_0000_0000 ==> row.iNext == row.a2 + row.a1 - 0x1_0000_0000
  {
    hide GetInt;
  }

  lemma NextAtEnd(z: bytes)
    requires |z| < 0x8000_0000
    ensures RowAt(z, |z|, 0).eOp == EOF && RowAt(z, |z|, 0).iNext == |z| && Orderly(z, |z|)
  {
    RowBounds(z, |z|, 0);
  }

  lemma {:induction false} OrderlyGoesForward(z: bytes, p: nat) returns (n: nat)
    requires p <= |z| < 0x8000_0000 && Orderly(z, p)
    ensures ForwardToEnd(z, p, n) && n <= |z| - p
    decreases |z| - p
  {
    hide RowAt, Orderly;
    if p == |z| {
      n := 0;
    } else {
      NextIsForward(z, p);
      var next := RowAt(z, p, 0).iNext;
      n := OrderlyGoesForward(z, next);
      n := n + 1;
      forall k: nat | k < n
        ensures Goes(z, p, k)
      {
        PositionStep(z, p, k);
        PositionStep(z, next, k);
        if k > 0 {
          PositionStep(z, p, k - 1);
          assert Goes(z, next, k - 1);
        }
      }
    }
  }

  lemma {:induction false} ForwardIsOrderly(z: bytes, p: nat, n: nat)
    requires p <= |z| < 0x8000_0000 && ForwardToEnd(z, p, n)
    ensures Orderly(z, p)
    decreases n
  {
    hide RowAt, Orderly;
    NextAtEnd(z);
    if n > 0 {
      assert Goes(z, p, 0);
      PositionStep(z, p, 0);
      var next := RowAt(z, p, 0).iNext;
      if 0 <= next <= |z| {
        PositionStep(z, next, 0);
      }
      NextIsForward(z, p);
      forall k: nat | k < n - 1
        ensures Goes(z, next, k)
      {
        assert Goes(z, p, k + 1);
        PositionStep(z, p, k);
        PositionStep(z, p, k + 1);
      }
      ForwardIsOrderly(z, next, n - 1);
    }
  }

  /** The cursor moves forward inside the delta up to the end-of-rows mark exactly if the rows it reaches are orderly,
    * and then it needs no more calls than there are bytes. */
  lemma ForwardExactly(z: bytes, p: nat)
    requires p <= |z| < 0x8000_0000
    ensures Orderly(z, p) <==> exists n: nat :: ForwardToEnd(z, p, n)
    ensures Orderly(z, p) ==> exists n: nat :: n <= |z| - p && ForwardToEnd(z, p, n)
  {
    hide ForwardToEnd, Orderly;
    if Orderly(z, p) {
      var n := OrderlyGoesForward(z, p);
    }
    if n: nat :| ForwardToEnd(z, p, n) {
      ForwardIsOrderly(z, p, n);
    }
  }

  /** So it does for every delta that the rows give a text for, whatever the source. */
  lemma {:induction false} ReadIsOrderly(src: bytes, z: bytes, p: nat)
    requires p <= |z| < 0x8000_0000 && ReadRows(src, z, p).Text?
    ensures Orderly(z, p)
    decreases |z| - p
  {
    hide RowAt;
    RowBounds(z, p, 0);
    var row := RowAt(z, p, 0);
    if row.eOp in {COPY, INSERT} {
      ReadIsOrderly(src, z, row.iNext);
    }
  }

  lemma {:induction false} PositionAdd(z: bytes, p: nat, m: nat, n: nat)
    requires p <= |z|
    ensures var q := Position(z, p, m);
      Position(z, p, m + n) == if q.Some? then Position(z, q.value, n) else Wrappers.None
    decreases m
  {
    hide RowAt;
    PositionStep(z, p, n);
    if m > 0 {
      PositionStep(z, p, m - 1);
      PositionStep(z, p, m - 1 + n);
      var next := RowAt(z, p, 0).iNext;
      if 0 <= next <= |z| {
        PositionAdd(z, next, m - 1, n);
      }
    }
  }

  lemma {:induction false} StaysAtEnd(z: bytes, n: nat)
    requires |z| < 0x8000_0000
    ensures Position(z, |z|, n) == Wrappers.Some(|z|)
    decreases n
  {
    hide RowAt;
    NextAtEnd(z);
    if n > 0 {
      StaysAtEnd(z, n - 1);
    }
  }

  /** More values than there are numbers below m: two are the same. */
  lemma {:induction false} Pigeonhole(s: seq<nat>, m: nat) returns (i: nat, j: nat)
    requires |s| > m && forall k :: 0 <= k < |s| ==> s[k] < m
    ensures i < j < |s| && s[i] == s[j]
    decreases m
  {
    var last := |s| - 1;
    if k :| 0 <= k < last && s[k] == s[last] {
      return k, last;
    }
    assert s[last] < m;
    var t := seq<nat>(last, k requires 0 <= k < last => if s[k] == m - 1 then s[last] else s[k]);
    i, j := Pigeonhole(t, m - 1);
  }

  lemma {:induction false} EndsSoon(z: bytes, p: nat, n: nat)
    requires p <= |z| < 0x8000_0000 && Position(z, p, n) == Wrappers.Some(|z|)
    ensures Position(z, p, |z|) == Wrappers.Some(|z|)
    decreases n
  {
    hide RowAt, Position;
    if n <= |z| {
      PositionAdd(z, p, n, |z| - n);
      StaysAtEnd(z, |z| - n);
    } else if k: nat :| k < n && Position(z, p, k) == Wrappers.Some(|z|) {
      EndsSoon(z, p, k);
    } else {
      forall k: nat | k < n
        ensures Position(z, p, k).Some?
      {
        PositionAdd(z, p, k, n - k);
      }
      var visited := seq<nat>(n, k requires 0 <= k < n => Position(z, p, k).value);
      var i, j := Pigeonhole(visited, |z|);
      PositionAdd(z, p, j, n - j);
      PositionAdd(z, p, i, n - j);
    }
  }

  /** A query comes to its end, forward or not, exactly if it has done so after as many calls as there are bytes. */
  lemma QueryEndsExactly(z: bytes, p: nat)
    requires p <= |z| < 0x8000_0000
    ensures (exists n: nat :: Position(z, p, n) == Wrappers.Some(|z|)) <==> Position(z, p, |z|) == Wrappers.Some(|z|)
  {
    hide Position;
    if n: nat :| Position(z, p, n) == Wrappers.Some(|z|) {
      EndsSoon(z, p, n);
    }
  }

  /** 1\n3~~~~u: has an INSERT row whose text would be 2^32 - 7 bytes long. Its next row is itself. */
  const ENDLESS: bytes :=
    ['1' as int, '\n' as int, '3' as int, '~' as int, '~' as int, '~' as int, '~' as int, 'u' as int, ':' as int]

  /** A query on it never ends. delta_apply rejects it. */
  lemma EndlessQuery(test: bool, src: bytes, n: nat)
    ensures FirstRow(ENDLESS) == Row(0, SIZE, 1, 0, 2) && RowAt(ENDLESS, 2, 0) == Row(2, INSERT, 0xFFFF_FFF9, 9, 2)
    ensures Position(ENDLESS, 2, n) == Wrappers.Some(2)
    ensures Apply(test, src, ENDLESS) == Corrupt
  {
    hide GetInt, ApplyFrom;
    var z := ENDLESS;
    OneDigit(z, 0);
    BigCount(z, 2);
    assert RowAt(z, 2, 0) == Row(2, INSERT, 0xFFFF_FFF9, 9, 2);
    hide RowAt;
    SameCommand(test, src, z, 2, 1, []);
    StaysPut(z, 2, n);
  }

  /** 1\n3~~~~~: has one of 2^32 - 1 bytes, and yet its query goes forward, from the number to its colon. */
  const WRAPPED: bytes :=
    ['1' as int, '\n' as int, '3' as int, '~' as int, '~' as int, '~' as int, '~' as int, '~' as int, ':' as int]

  lemma WrappedGoesForward()
    ensures RowAt(WRAPPED, 2, 0) == Row(2, INSERT, 0xFFFF_FFFF, 9, 8) && Orderly(WRAPPED, 2)
  {
    hide GetInt, Orderly;
    var z := WRAPPED;
    BigCount(z, 2);
    GetIntNone(z, 8);
    assert RowAt(z, 2, 0) == Row(2, INSERT, 0xFFFF_FFFF, 9, 8);
    assert RowAt(z, 8, 0) == Row(8, INSERT, 0, 9, 9);
    hide RowAt;
    NextAtEnd(z);
    NextIsForward(z, 8);
    NextIsForward(z, 2);
  }

  lemma GetIntNone(z: bytes, p: nat)
    requires DigitValue(At(z, p)) < 0
    ensures GetInt(z, p) == (0, p)
  {
  }

  lemma {:induction false} StaysPut(z: bytes, p: nat, n: nat)
    requires p <= |z| && RowAt(z, p, 0).iNext == p
    ensures Position(z, p, n) == Wrappers.Some(p)
    decreases n
  {
    hide RowAt;
    if n > 0 {
      StaysPut(z, p, n - 1);
    }
  }

  // ---------- The rows of a query ----------

  /** At most `n` rows from offset `p` on, without the end-of-rows mark. */
  function RowsFrom(z: bytes, p: nat, a2: nat, n: nat): seq<Row>
    requires p <= |z|
    decreases n
  {
    var row := RowAt(z, p, a2);
    if n == 0 || row.eOp == EOF then []
    else [row] + if 0 <= row.iNext <= |z| then RowsFrom(z, row.iNext, row.a2, n - 1) else []
  }

  lemma RowsFromStep(z: bytes, p: nat, a2: nat, n: nat)
    requires p <= |z| && n > 0
    ensures var row := RowAt(z, p, a2);
      RowsFrom(z, p, a2, n)
      == if row.eOp == EOF then []
         else [row] + if 0 <= row.iNext <= |z| then RowsFrom(z, row.iNext, row.a2, n - 1) else []
  {
  }

  lemma RowsEnd(z: bytes, p: int, a2: nat)
    ensures 0 <= p <= |z| ==> RowsFrom(z, p, a2, 0) == []
  {
  }

  /** The meaning of a list of rows, the size row left out. */
  function Interpret(rows: seq<Row>, src: bytes, z: bytes): Reading {
    if rows == [] then Bad
    else
      var row, rest := rows[0], rows[1..];
      match row.eOp
      case COPY =>
        if CopyFits(src, z, row) then Prepend(src[row.a2..row.a2 + row.a1], Interpret(rest, src, z)) else Bad
      case INSERT =>
        if TextFits(z, row) then Prepend(z[row.a2..row.a2 + row.a1], Interpret(rest, src, z)) else Bad
      case CHECKSUM => if rest == [] then Text([], row.a1) else Bad
      case _ => Bad
  }

  /** The rows of a query that does not stop too early mean what ReadRows says, so by DecodersAgree they give what
    * delta_apply gives. No more rows are needed than the delta has bytes. */
  lemma {:induction false} RowsMean(src: bytes, z: bytes, p: nat, a2: nat, n: nat)
    requires p <= |z| < 0x8000_0000 && n > |z| - p
    ensures Interpret(RowsFrom(z, p, a2, n), src, z) == ReadRows(src, z, p)
    decreases n
  {
    hide RowAt, RowsFrom, Interpret;
    StaleArgument(z, p, a2);
    RowBounds(z, p, 0);
    var row := RowAt(z, p, a2);
    RowsFromStep(z, p, a2, n);
    if row.eOp == EOF {
      InterpretNone(src, z);
    } else {
      var rest := if 0 <= row.iNext <= |z| then RowsFrom(z, row.iNext, row.a2, n - 1) else [];
      InterpretStep(row, rest, src, z);
      if row.eOp == CHECKSUM {
        NothingAtEnd(z, row.a2, n - 1);
      } else if p < row.iNext <= |z| && row.eOp in {COPY, INSERT} {
        RowsMean(src, z, row.iNext, row.a2, n - 1);
      }
    }
  }

  lemma InterpretNone(src: bytes, z: bytes)
    ensures Interpret([], src, z) == Bad
  {
  }

  lemma InterpretStep(row: Row, rest: seq<Row>, src: bytes, z: bytes)
    ensures Interpret([row] + rest, src, z) ==
            match row.eOp
            case COPY =>
              if CopyFits(src, z, row) then Prepend(src[row.a2..row.a2 + row.a1], Interpret(rest, src, z)) else Bad
            case INSERT =>
              if TextFits(z, row) then Prepend(z[row.a2..row.a2 + row.a1], Interpret(rest, src, z)) else Bad
            case CHECKSUM => if rest == [] then Text([], row.a1) else Bad
            case _ => Bad
  {
    assert ([row] + rest)[1..] == rest;
  }

  lemma NothingAtEnd(z: bytes, a2: nat, n: nat)
    requires |z| < 0x8000_0000
    ensures RowsFrom(z, |z|, a2, n) == []
  {
    RowBounds(z, |z|, a2);
  }

  /** The cursor of one query; aDelta is a null pointer until Filter has copied the delta. */
  class Cursor {
    var aDelta: Wrappers.Option<bytes>
    var iCursor: nat
    var eOp: Op
    var a1: nat
    var a2: nat
    var iNext: int

    function Current(): Row
      reads this
    {
      Row(iCursor, eOp, a1, a2, iNext)
    }

    /** deltaparsevtabOpen: all fields zero. */
    constructor ()
      ensures aDelta == Wrappers.None && Current() == Row(0, SIZE, 0, 0, 0)
    {
      aDelta, iCursor, eOp, a1, a2, iNext := Wrappers.None, 0, SIZE, 0, 0, 0;
    }

    /** deltaparsevtabFilter on a fresh cursor, with the constraint delta = `z`. An empty delta is
      * not copied. */
    method Filter(z: bytes)
      requires aDelta == Wrappers.None && Current() == Row(0, SIZE, 0, 0, 0)
      modifies this
      ensures aDelta == (if z == [] then Wrappers.None else Wrappers.Some(z)) && Current() == FirstRow(z)
    {
      eOp := ERROR;
      if |z| == 0 {
        return;
      }
      aDelta := Wrappers.Some(z);
      eOp := SIZE;
      var v, p, _ := DeltaGetInt(z, 0, 0);
      a1 := v;
      if At(z, p) != '\n' as int {
        eOp, a1, a2, iNext := ERROR, 0, 0, |z|;
        return;
      }
      iNext := p + 1;
    }

    /** deltaparsevtabNext. The C code trusts that there is a delta and that iNext lies inside it or at its end. */
    method Next()
      requires aDelta.Some? && 0 <= iNext <= |aDelta.value|
      modifies this`iCursor, this`eOp, this`a1, this`a2, this`iNext
      ensures Current() == RowAt(aDelta.value, old(iNext), old(a2))
    {
      hide GetInt, DigitValue, CInt;
      var z := aDelta.value;
      iCursor := iNext;
      var v, q, _ := DeltaGetInt(z, iCursor, 0);
      a1 := v;
      if At(z, q) == '@' as int {
        var ofst, r, _ := DeltaGetInt(z, q + 1, 0);
        a2, eOp, iNext := ofst, COPY, CInt(r + 1);
      } else if At(z, q) == ':' as int {
        a2, eOp, iNext := q + 1, INSERT, CInt(q + 1 + a1);
      } else if At(z, q) == ';' as int {
        eOp, iNext := CHECKSUM, |z|;
      } else if iNext == |z| {
        eOp := EOF;
      } else {
        eOp, iNext := ERROR, |z|;
      }
    }

    /** deltaparsevtabEof */
    method Eof() returns (b: bool)
      ensures b <==> eOp == EOF
    {
      b := eOp == EOF;
    }

    /** A query of at most `n` rows behind the first: rewind, then row after row up to the end-of-rows mark, or up to
      * a row that sends the cursor outside the delta. */
    method Scan(z: bytes, n: nat) returns (rows: seq<Row>)
      requires aDelta == Wrappers.None && Current() == Row(0, SIZE, 0, 0, 0) && z != []
      modifies this
      ensures rows == [FirstRow(z)] + RowsFrom(z, FirstRow(z).iNext, FirstRow(z).a2, n)
    {
      hide RowAt, FirstRow, RowsFrom;
      Filter(z);
      rows := [Current()];
      ghost var all := [FirstRow(z)] + RowsFrom(z, FirstRow(z).iNext, FirstRow(z).a2, n);
      var left: nat := n;
      while left > 0 && 0 <= iNext <= |z|
        invariant aDelta == Wrappers.Some(z) && left <= n
        invariant all == rows + if 0 <= iNext <= |z| then RowsFrom(z, iNext, a2, left) else []
        decreases left
      {
        RowsFromStep(z, iNext, a2, left);
        Next();
        var eof := Eof();
        if eof {
          assert rows + [] == rows;
          return;
        }
        left := left - 1;
        Assoc(rows, [Current()], if 0 <= iNext <= |z| then RowsFrom(z, iNext, a2, left) else []);
        rows := rows + [Current()];
      }
      RowsEnd(z, iNext, a2);
      assert rows + [] == rows;
    }
  }
}
