/** delta_output_size, delta_apply and the SQL function around them (ext/fossildelta.c:506-621, 663-698). */
module DeltaApply {
  import opened Bytes
  import opened Base64
  import opened DeltaChecksum
  import opened DeltaFormat

  /** The return value of delta_apply: the size written, -1, or none because its behaviour is undefined. */
  datatype Status = Total(n: nat) | Rejected | Undefined

  ghost predicate Reports(status: Status, zOut: seq<byte>, r: Outcome) {
    match r
    case Done(out) => status == Total(|out|) && |out| < |zOut| && zOut[..|out|] == out && zOut[|out|] == 0
    case Corrupt => status == Rejected
    case Undefined => status == Status.Undefined
  }

  method DeltaOutputSize(z: bytes) returns (size: int)
    ensures size == OutputSize(z)
  {
    var v, p, _ := DeltaGetInt(z, 0, |z|);
    if At(z, p) != '\n' as int {
      return -1;
    }
    return AsInt32(v);
  }

  /** The body of the loop either returns or goes on with a new total and position. */
  datatype Progress = Continue(total: nat, p: nat, len: int) | Return(status: Status)

  ghost predicate GoesOn(test: bool, src: bytes, z: bytes, limit: nat, zOut: seq<byte>, g: Progress, r: Outcome)
    requires limit < 0x1_0000_0000
  {
    match g
    case Return(status) => Reports(status, zOut, r)
    case Continue(total, p, len) =>
      && len == |z| - p
      && total <= limit && total <= |zOut|
      && ApplyFrom(test, src, z, p, limit, zOut[..total]) == r
  }

  /** case '@' */
  method CopyCommand(test: bool, src: bytes, z: bytes, p0: nat, len0: int, limit: nat, total: nat, cnt: nat,
                     zOut: array<byte>) returns (g: Progress)
    requires p0 <= |z| && len0 == |z| - p0
    requires total <= limit < zOut.Length && limit < 0x1_0000_0000
    modifies zOut
    ensures GoesOn(test, src, z, limit, zOut[..], g, ApplyCopy(test, src, z, p0, limit, old(zOut[..total]), cnt))
    ensures g.Continue? ==> g.p > p0
  {
    hide GetInt, Checksum, U32;
    var ofst, p, len := DeltaGetInt(z, p0, len0);
    if len > 0 && At(z, p) != ',' as int {
      return Return(Rejected);
    }
    p, len := p + 1, len - 1;
    if U32(total + cnt) > limit {
      return Return(Rejected);
    }
    if U32(ofst + cnt) > |src| {
      return Return(Rejected);
    }
    if total + cnt > limit || ofst + cnt > |src| {
      return Return(Status.Undefined);
    }
    CopyBytes(src[ofst..ofst + cnt], zOut, total);
    assert zOut[..][..total + cnt] == zOut[..total + cnt];
    return Continue(total + cnt, p, len);
  }

  /** case ':' */
  method InsertCommand(test: bool, src: bytes, z: bytes, p: nat, len: int, limit: nat, total: nat, cnt: nat,
                       zOut: array<byte>) returns (g: Progress)
    requires p <= |z| && len == |z| - p
    requires total <= limit < zOut.Length && limit < 0x1_0000_0000
    modifies zOut
    ensures GoesOn(test, src, z, limit, zOut[..], g, ApplyInsert(test, src, z, p, limit, old(zOut[..total]), cnt))
    ensures g.Continue? ==> g.p >= p
  {
    hide U32, ApplyFrom;
    if U32(total + cnt) > limit {
      return Return(Rejected);
    }
    if cnt > len {
      return Return(Rejected);
    }
    if total + cnt > limit {
      return Return(Status.Undefined);
    }
    CopyBytes(z[p..p + cnt], zOut, total);
    assert zOut[..][..total + cnt] == zOut[..total + cnt];
    return Continue(total + cnt, p + cnt, len - cnt);
  }

  /** case ';' */
  method EndCommand(test: bool, limit: nat, total: nat, cnt: nat, zOut: array<byte>) returns (g: Progress)
    requires total <= limit < zOut.Length
    modifies zOut
    ensures g.Return? && Reports(g.status, zOut[..], ApplyEnd(test, limit, old(zOut[..total]), cnt))
  {
    hide Checksum;
    zOut[total] := 0;
    assert zOut[..total] == old(zOut[..total]);
    if test {
      var sum := ChecksumByWord(zOut[..total]);
      if cnt != sum {
        return Return(Rejected);
      }
    }
    if total != limit {
      return Return(Rejected);
    }
    return Return(Total(total));
  }

  /** delta_apply: `zDelta` and `lenDelta` of the C code are `p` and `len`; the output buffer must hold
    * the announced size and a NUL. */
  method DeltaApply(test: bool, src: bytes, z: bytes, zOut: array<byte>) returns (status: Status)
    requires zOut.Length > GetInt(z, 0).0
    modifies zOut
    ensures At(z, GetInt(z, 0).1) != '\n' as int ==> status == Rejected
    ensures At(z, GetInt(z, 0).1) == '\n' as int ==>
      Reports(status, zOut[..], ApplyFrom(test, src, z, GetInt(z, 0).1 + 1, GetInt(z, 0).0, []))
  {
    hide GetInt, ApplyFrom, ApplyCopy, ApplyInsert, ApplyEnd;
    var limit, p, len := DeltaGetInt(z, 0, |z|);
    if At(z, p) != '\n' as int {
      return Rejected;
    }
    p, len := p + 1, len - 1;
    var total: nat := 0;
    ghost var result := ApplyFrom(test, src, z, p, limit, []);
    assert zOut[..][..0] == [];
    while At(z, p) != 0 && len > 0
      invariant total <= limit && len == |z| - p
      invariant GoesOn(test, src, z, limit, zOut[..], Continue(total, p, len), result)
      decreases |z| + 1 - p
    {
      UnfoldCommand(test, src, z, p, limit, zOut[..total]);
      assert zOut[..][..total] == zOut[..total];
      var cnt, q, len' := DeltaGetInt(z, p, len);
      var next;
      if At(z, q) == '@' as int {
        next := CopyCommand(test, src, z, q + 1, len' - 1, limit, total, cnt, zOut);
      } else if At(z, q) == ':' as int {
        next := InsertCommand(test, src, z, q + 1, len' - 1, limit, total, cnt, zOut);
      } else if At(z, q) == ';' as int {
        next := EndCommand(test, limit, total, cnt, zOut);
      } else {
        return Rejected;
      }
      match next {
        case Return(s) => return s;
        case Continue(total', p', len'') => total, p, len := total', p', len'';
      }
    }
    UnterminatedDelta(test, src, z, p, limit, zOut[..][..total]);
    return Rejected;
  }

  lemma UnterminatedDelta(test: bool, src: bytes, z: bytes, p: nat, limit: nat, out: bytes)
    requires |out| <= limit < 0x1_0000_0000
    requires At(z, p) == 0 || p >= |z|
    ensures ApplyFrom(test, src, z, p, limit, out) == Corrupt
  {
  }

  /** The SQL function delta_apply(X, D): Done(Y) is the blob Y, anything else is an error. */
  method DeltaApplyFunc(test: bool, src: bytes, z: bytes) returns (r: Outcome)
    ensures r == Apply(test, src, z)
  {
    var nOut := DeltaOutputSize(z);
    if nOut < 0 {
      return Corrupt;
    }
    var aOut := new byte[nOut + 1];
    var status := DeltaApply(test, src, z, aOut);
    match status
    case Total(n) =>
      return Done(aOut[..nOut]);
    case Rejected =>
      return Corrupt;
    case Undefined =>
      return Outcome.Undefined;
  }
}
