/** Calibration-record extraction of eovsapy/sqlutil.py: `sql2refcalX`
    (reference calibrations, record type 8) and `sql2phacalX` (phase
    calibrations, record type 9). The record reader `cal_header.read_calX`,
    the field decoder `util.extract`, the `Time(..., format='lv')`
    conversion and its `.iso` form, and numpy's complex arithmetic are
    external: they are the fields of `Services`, and each of them may raise. */
module CalRecords {
  import opened Common

  newtype byte = x: int | 0 <= x < 256

  /** One fixed-layout binary record. */
  type Buffer = seq<byte>

  /** One entry of the record schema `xml`: where and how a field is stored. */
  datatype FieldSpec = FieldSpec(offset: nat, dtype: string, shape: seq<nat>)

  type Schema = map<string, FieldSpec>

  /** A decoded field: a number, or a numpy array with its shape, whose
      `items` are its entries along the first axis. */
  datatype Value = Scalar(x: real) | Array(shape: seq<nat>, items: seq<Value>)

  /** The shape of a value; a number has rank 0. */
  function ShapeOf(v: Value): seq<nat> {
    if v.Scalar? then [] else v.shape
  }

  /** What makes a value a numpy array: the first axis has one entry per
      item, every item has the remaining shape, and an empty axis still
      keeps the lengths of the axes below it. */
  predicate WellShaped(v: Value)
    decreases v
  {
    match v
    case Scalar(_) => true
    case Array(shape, items) =>
      && |shape| >= 1 && shape[0] == |items|
      && forall i :: 0 <= i < |items| ==> ShapeOf(items[i]) == shape[1..] && WellShaped(items[i])
  }

  /** The values `extract` returns. */
  type NdValue = v: Value | WellShaped(v) witness Scalar(0.0)

  /** A time stamp of the external time library. */
  datatype Time = Time(jd: real)

  /** Why a decode step raised. */
  datatype Fault = KeyError(key: string) | DecodeError | TimeError | IndexError

  /** What `read_calX` returns as `bufs`: a numpy array of records, a single
      `bytes` record, or anything else. */
  datatype Bufs = BufferArray(items: seq<Buffer>) | Bytes(data: Buffer) | OtherKind

  datatype Services = Services(
    readCalX: int -> Result<(Schema, Bufs), Fault>,    // ch.read_calX(caltype, t=trange, ...)
    extract: (Buffer, FieldSpec) -> Result<NdValue, Fault>,
    lvTime: Value -> Result<Time, Fault>,              // Time(v, format='lv')
    iso: Time -> Result<string, Fault>,                // .iso
    complex: (Value, Value) -> Result<Value, Fault>,   // re + im * 1j
    angle: Value -> Value,                             // np.angle
    absolute: Value -> Value)                          // np.absolute

  const RefcalType: int := 8
  const PhacalType: int := 9

  /** `extract(buf, xml[key])`; a key missing from the schema raises KeyError. */
  function Field(svc: Services, xml: Schema, buf: Buffer, key: string): Result<NdValue, Fault> {
    if key in xml then svc.extract(buf, xml[key]) else Failure(KeyError(key))
  }

  /** `Time(extract(buf, xml[key]), format='lv')` */
  function TimeField(svc: Services, xml: Schema, buf: Buffer, key: string): Result<Time, Fault> {
    var v :- Field(svc, xml, buf, key);
    svc.lvTime(v)
  }

  // ---------------------------------------------------------------- last-axis split

  /** `v[:, ..., :, k]` with `depth` full slices before k: `Take(v, 2, k)` is
      `v[:, :, k]`. Too many indices for the rank, or an index past the end
      of its axis, is an IndexError; numpy checks both from the shape alone,
      so an empty outer axis does not hide them. */
  function Take(v: Value, depth: nat, k: nat): Result<Value, Fault>
    decreases v
  {
    match v
    case Scalar(_) => Failure(IndexError)
    case Array(shape, items) =>
      if |shape| <= depth || shape[depth] <= k then Failure(IndexError)
      else if depth == 0 then
        if k < |items| then Success(items[k]) else Failure(IndexError)
      else if forall i :: 0 <= i < |items| ==> Take(items[i], depth - 1, k).Success? then
        Success(Array(shape[..depth] + shape[depth + 1..],
                      seq(|items|, i requires 0 <= i < |items| => Take(items[i], depth - 1, k).value)))
      else Failure(IndexError)
  }

  /** v has at least three axes and its third axis has length at least m. */
  predicate ThirdAxisAtLeast(v: Value, m: nat) {
    v.Array? && |v.shape| >= 3 && m <= v.shape[2]
  }

  /** `v[k]` succeeds exactly when k is inside the first axis, and yields that entry. */
  lemma TakeOne(v: NdValue, k: nat)
    ensures Take(v, 0, k).Success? <==> v.Array? && k < v.shape[0]
    ensures Take(v, 0, k).Success? ==> Take(v, 0, k).value == v.items[k] && WellShaped(v.items[k])
  {
  }

  /** `v[:, k]` succeeds exactly when v has a second axis longer than k; entry
      i of the result is v[i, k], and the second axis is gone from the shape. */
  lemma TakeTwo(v: NdValue, k: nat)
    ensures Take(v, 1, k).Success? <==> v.Array? && |v.shape| >= 2 && k < v.shape[1]
    ensures Take(v, 1, k).Success? ==>
      && v.Array? && |v.shape| >= 2 && k < v.shape[1]
      && Take(v, 1, k).value.Array? && Take(v, 1, k).value.shape == [v.shape[0]] + v.shape[2..]
      && |Take(v, 1, k).value.items| == |v.items|
      && WellShaped(Take(v, 1, k).value)
      && forall i :: 0 <= i < |v.items| ==>
           v.items[i].Array? && k < |v.items[i].items| && Take(v, 1, k).value.items[i] == v.items[i].items[k]
  {
    if v.Array? && |v.shape| >= 2 && k < v.shape[1] {
      forall i | 0 <= i < |v.items|
        ensures v.items[i].Array? && Take(v.items[i], 0, k).Success?
        ensures Take(v.items[i], 0, k).value == v.items[i].items[k]
        ensures ShapeOf(v.items[i].items[k]) == v.shape[2..] && WellShaped(v.items[i].items[k])
      {
        var w: NdValue := v.items[i];
        assert ShapeOf(w) == v.shape[1..];
        TakeOne(w, k);
      }
      var r := Take(v, 1, k).value;
      assert r.shape == [v.shape[0]] + v.shape[2..];
      assert forall i :: 0 <= i < |r.items| ==> ShapeOf(r.items[i]) == r.shape[1..] && WellShaped(r.items[i]);
    }
  }

  /** `v[:, :, k]` succeeds exactly when v has a third axis longer than k.
      Element (i, j) of the result is v[i, j, k], and the result is an array
      of v's shape without its third axis. */
  lemma TakeThirdAxis(v: NdValue, k: nat)
    ensures Take(v, 2, k).Success? <==> ThirdAxisAtLeast(v, k + 1)
    ensures Take(v, 2, k).Success? ==>
      var r := Take(v, 2, k).value;
      && ThirdAxisAtLeast(v, k + 1)
      && r.Array? && r.shape == v.shape[..2] + v.shape[3..] && WellShaped(r)
      && |r.items| == |v.items|
      && forall i :: 0 <= i < |v.items| ==>
           && v.items[i].Array? && r.items[i].Array? && |r.items[i].items| == |v.items[i].items|
           && forall j :: 0 <= j < |v.items[i].items| ==>
                v.items[i].items[j].Array? && k < |v.items[i].items[j].items|
                && r.items[i].items[j] == v.items[i].items[j].items[k]
  {
    if ThirdAxisAtLeast(v, k + 1) {
      forall i | 0 <= i < |v.items|
        ensures v.items[i].Array? && Take(v.items[i], 1, k).Success?
        ensures var t := Take(v.items[i], 1, k).value;
          && t.Array? && t.shape == [v.shape[1]] + v.shape[3..] && WellShaped(t)
          && |t.items| == |v.items[i].items|
          && forall j :: 0 <= j < |v.items[i].items| ==>
               v.items[i].items[j].Array? && k < |v.items[i].items[j].items|
               && t.items[j] == v.items[i].items[j].items[k]
      {
        TakeThirdAxisRow(v, k, i);
      }
      TakeThirdAxisShape(v, k);
    }
  }

  /** Row i of `v[:, :, k]` is `v[i][:, k]`. */
  lemma TakeThirdAxisRow(v: NdValue, k: nat, i: nat)
    requires ThirdAxisAtLeast(v, k + 1) && i < |v.items|
    ensures v.items[i].Array? && Take(v.items[i], 1, k).Success?
    ensures var t := Take(v.items[i], 1, k).value;
      && t.Array? && t.shape == [v.shape[1]] + v.shape[3..] && WellShaped(t)
      && |t.items| == |v.items[i].items|
      && forall j :: 0 <= j < |v.items[i].items| ==>
           v.items[i].items[j].Array? && k < |v.items[i].items[j].items|
           && t.items[j] == v.items[i].items[j].items[k]
  {
    var w: NdValue := v.items[i];
    assert ShapeOf(w) == v.shape[1..];
    TakeTwo(w, k);
  }

  /** `v[:, :, k]` is an array of v's shape without the third axis. */
  lemma TakeThirdAxisShape(v: NdValue, k: nat)
    requires ThirdAxisAtLeast(v, k + 1)
    requires forall i :: 0 <= i < |v.items| ==>
      && Take(v.items[i], 1, k).Success?
      && ShapeOf(Take(v.items[i], 1, k).value) == [v.shape[1]] + v.shape[3..]
      && WellShaped(Take(v.items[i], 1, k).value)
    ensures Take(v, 2, k).Success?
    ensures var r := Take(v, 2, k).value;
      r.Array? && r.shape == v.shape[..2] + v.shape[3..] && WellShaped(r) && |r.items| == |v.items|
  {
    var r := Take(v, 2, k).value;
    assert r.shape == v.shape[..2] + v.shape[3..];
    assert r.shape[1..] == [v.shape[1]] + v.shape[3..];
    assert forall i :: 0 <= i < |r.items| ==> ShapeOf(r.items[i]) == r.shape[1..] && WellShaped(r.items[i]);
  }

  // ---------------------------------------------------------------- records

  /** The entries of a reference-calibration record; the nested `phacal`
      entry of a phase-calibration record has the same keys. */
  datatype CalFields = CalFields(pha: Value, amp: Value, flag: Value, fghz: Value, sigma: Value,
                                 timestamp: Time, tBg: Time, tEd: Time)

  /** A phase-calibration record. */
  datatype Phacal = Phacal(pslope: Value, tPha: Time, flag: Value, poff: Value, tRef: Time, phacal: CalFields)

  /** The body of the `try` in `sql2refcalX` (lines 15-24), which is also the
      whole bytes branch (lines 29-38): one record decoded, or the first fault. */
  function DecodeRefcal(svc: Services, xml: Schema, buf: Buffer): (r: Result<CalFields, Fault>)
    ensures r.Success? <==>
      && Field(svc, xml, buf, "Refcal_Real").Success? && Field(svc, xml, buf, "Refcal_Imag").Success?
      && svc.complex(Field(svc, xml, buf, "Refcal_Real").value, Field(svc, xml, buf, "Refcal_Imag").value).Success?
      && Field(svc, xml, buf, "Refcal_Flag").Success? && Field(svc, xml, buf, "Fghz").Success?
      && Field(svc, xml, buf, "Refcal_Sigma").Success?
      && TimeField(svc, xml, buf, "Timestamp").Success? && TimeField(svc, xml, buf, "T_beg").Success?
      && TimeField(svc, xml, buf, "T_end").Success?
    ensures r.Success? ==>
      var ref := svc.complex(Field(svc, xml, buf, "Refcal_Real").value, Field(svc, xml, buf, "Refcal_Imag").value).value;
      && r.value.pha == svc.angle(ref) && r.value.amp == svc.absolute(ref)
      && Field(svc, xml, buf, "Refcal_Flag") == Success(r.value.flag)
      && Field(svc, xml, buf, "Fghz") == Success(r.value.fghz)
      && Field(svc, xml, buf, "Refcal_Sigma") == Success(r.value.sigma)
      && TimeField(svc, xml, buf, "Timestamp") == Success(r.value.timestamp)
      && TimeField(svc, xml, buf, "T_beg") == Success(r.value.tBg)
      && TimeField(svc, xml, buf, "T_end") == Success(r.value.tEd)
  {
    var re :- Field(svc, xml, buf, "Refcal_Real");
    var im :- Field(svc, xml, buf, "Refcal_Imag");
    var ref :- svc.complex(re, im);
    var flag :- Field(svc, xml, buf, "Refcal_Flag");
    var fghz :- Field(svc, xml, buf, "Fghz");
    var sigma :- Field(svc, xml, buf, "Refcal_Sigma");
    var timestamp :- TimeField(svc, xml, buf, "Timestamp");
    var tbg :- TimeField(svc, xml, buf, "T_beg");
    var ted :- TimeField(svc, xml, buf, "T_end");
    Success(CalFields(svc.angle(ref), svc.absolute(ref), flag, fghz, sigma, timestamp, tbg, ted))
  }

  /** The body of the `try` in `sql2phacalX` (lines 51-65), which is also the
      whole bytes branch (lines 70-84). */
  function DecodePhacal(svc: Services, xml: Schema, buf: Buffer): (r: Result<Phacal, Fault>)
    ensures r.Success? <==>
      && Field(svc, xml, buf, "Phacal_Flag").Success? && Field(svc, xml, buf, "Fghz").Success?
      && Field(svc, xml, buf, "Phacal_Sigma").Success?
      && TimeField(svc, xml, buf, "Timestamp").Success? && TimeField(svc, xml, buf, "T_beg").Success?
      && TimeField(svc, xml, buf, "T_end").Success?
      && Field(svc, xml, buf, "Phacal_Pha").Success? && Field(svc, xml, buf, "Phacal_Amp").Success?
      && Field(svc, xml, buf, "MBD").Success? && ThirdAxisAtLeast(Field(svc, xml, buf, "MBD").value, 2)
      && Field(svc, xml, buf, "Flag").Success? && ThirdAxisAtLeast(Field(svc, xml, buf, "Flag").value, 1)
      && TimeField(svc, xml, buf, "T_refcal").Success?
    ensures r.Success? ==>
      && Take(Field(svc, xml, buf, "MBD").value, 2, 0) == Success(r.value.poff)
      && Take(Field(svc, xml, buf, "MBD").value, 2, 1) == Success(r.value.pslope)
      && Take(Field(svc, xml, buf, "Flag").value, 2, 0) == Success(r.value.flag)
      && TimeField(svc, xml, buf, "Timestamp") == Success(r.value.tPha)
      && r.value.phacal.timestamp == r.value.tPha
      && TimeField(svc, xml, buf, "T_refcal") == Success(r.value.tRef)
      && Field(svc, xml, buf, "Phacal_Flag") == Success(r.value.phacal.flag)
      && Field(svc, xml, buf, "Phacal_Pha") == Success(r.value.phacal.pha)
      && Field(svc, xml, buf, "Phacal_Amp") == Success(r.value.phacal.amp)
      && Field(svc, xml, buf, "Fghz") == Success(r.value.phacal.fghz)
      && Field(svc, xml, buf, "Phacal_Sigma") == Success(r.value.phacal.sigma)
      && TimeField(svc, xml, buf, "T_beg") == Success(r.value.phacal.tBg)
      && TimeField(svc, xml, buf, "T_end") == Success(r.value.phacal.tEd)
  {
    var phacalFlag :- Field(svc, xml, buf, "Phacal_Flag");
    var fghz :- Field(svc, xml, buf, "Fghz");
    var sigma :- Field(svc, xml, buf, "Phacal_Sigma");
    var timestamp :- TimeField(svc, xml, buf, "Timestamp");
    var tbg :- TimeField(svc, xml, buf, "T_beg");
    var ted :- TimeField(svc, xml, buf, "T_end");
    var pha :- Field(svc, xml, buf, "Phacal_Pha");
    var amp :- Field(svc, xml, buf, "Phacal_Amp");
    var mbd :- Field(svc, xml, buf, "MBD");
    TakeThirdAxis(mbd, 0);
    var poff :- Take(mbd, 2, 0);
    TakeThirdAxis(mbd, 1);
    var pslope :- Take(mbd, 2, 1);
    var flags :- Field(svc, xml, buf, "Flag");
    TakeThirdAxis(flags, 0);
    var flag :- Take(flags, 2, 0);
    var tRef :- TimeField(svc, xml, buf, "T_refcal");
    Success(Phacal(pslope, timestamp, flag, poff, tRef,
                   CalFields(pha, amp, phacalFlag, fghz, sigma, timestamp, tbg, ted)))
  }

  /** A phase-calibration record splits MBD's last axis: element (i, j) of
      `poff` is MBD[i, j, 0] and of `pslope` is MBD[i, j, 1]; the outer flag is
      Flag[i, j, 0]. */
  lemma PhacalSplitsMbd(svc: Services, xml: Schema, buf: Buffer, i: nat, j: nat)
    requires DecodePhacal(svc, xml, buf).Success?
    requires var mbd := Field(svc, xml, buf, "MBD").value;
      mbd.Array? && |mbd.shape| >= 2 && i < mbd.shape[0] && j < mbd.shape[1]
    ensures var rec, mbd := DecodePhacal(svc, xml, buf).value, Field(svc, xml, buf, "MBD").value;
      && ThirdAxisAtLeast(mbd, 2)
      && rec.poff.shape == rec.pslope.shape == mbd.shape[..2] + mbd.shape[3..]
      && i < |mbd.items| && mbd.items[i].Array? && j < |mbd.items[i].items|
      && mbd.items[i].items[j].Array? && 2 <= |mbd.items[i].items[j].items|
      && rec.poff.Array? && i < |rec.poff.items| && rec.poff.items[i].Array? && j < |rec.poff.items[i].items|
      && rec.pslope.Array? && i < |rec.pslope.items| && rec.pslope.items[i].Array? && j < |rec.pslope.items[i].items|
      && rec.poff.items[i].items[j] == mbd.items[i].items[j].items[0]
      && rec.pslope.items[i].items[j] == mbd.items[i].items[j].items[1]
  {
    var mbd := Field(svc, xml, buf, "MBD").value;
    TakeThirdAxis(mbd, 0);
    TakeThirdAxis(mbd, 1);
    var w: NdValue := mbd.items[i];
    assert ShapeOf(w) == mbd.shape[1..];
  }

  // ---------------------------------------------------------------- batches

  /** The records of the buffers that decode, in input order. */
  function Decoded<R>(bufs: seq<Buffer>, decode: Buffer -> Result<R, Fault>): (r: seq<R>)
    ensures |r| <= |bufs|
  {
    if bufs == [] then []
    else
      var last := decode(bufs[|bufs| - 1]);
      Decoded(bufs[..|bufs| - 1], decode) + (if last.Success? then [last.value] else [])
  }

  /** The number of buffers that do not decode. */
  function FailCount<R>(bufs: seq<Buffer>, decode: Buffer -> Result<R, Fault>): nat {
    if bufs == [] then 0
    else FailCount(bufs[..|bufs| - 1], decode) + (if decode(bufs[|bufs| - 1]).Failure? then 1 else 0)
  }

  /** A buffer the batch loop gets past: it decodes, or the `except` handler's
      own re-extraction of its time stamp succeeds. */
  predicate Isolated<R>(decode: Buffer -> Result<R, Fault>, diagnose: Buffer -> Result<string, Fault>, buf: Buffer) {
    decode(buf).Success? || diagnose(buf).Success?
  }

  /** Batches compose: decoding a + b gives a's records then b's, so a
      failing buffer costs only its own record. */
  lemma {:induction false} DecodedAppend<R>(a: seq<Buffer>, b: seq<Buffer>, decode: Buffer -> Result<R, Fault>)
    ensures Decoded(a + b, decode) == Decoded(a, decode) + Decoded(b, decode)
    decreases |b|
  {
    if b == [] {
      assert a + b == a;
    } else {
      assert (a + b)[..|a + b| - 1] == a + b[..|b| - 1];
      DecodedAppend(a, b[..|b| - 1], decode);
    }
  }

  /** A buffer that fails is skipped; those after it are still decoded. */
  lemma DecodedSkips<R>(a: seq<Buffer>, x: Buffer, b: seq<Buffer>, decode: Buffer -> Result<R, Fault>)
    requires decode(x).Failure?
    ensures Decoded(a + [x] + b, decode) == Decoded(a, decode) + Decoded(b, decode)
  {
    assert Decoded([x], decode) == [] by {
      assert [x][..0] == [];
    }
    DecodedAppend(a, [x], decode);
    assert Decoded(a + [x], decode) == Decoded(a, decode);
    DecodedAppend(a + [x], b, decode);
  }

  /** Every buffer is either decoded or skipped: records plus failures make up the batch. */
  lemma {:induction false} DecodedCount<R>(bufs: seq<Buffer>, decode: Buffer -> Result<R, Fault>)
    ensures |Decoded(bufs, decode)| + FailCount(bufs, decode) == |bufs|
  {
    if bufs != [] {
      DecodedCount(bufs[..|bufs| - 1], decode);
    }
  }

  /** A record is in the batch result exactly when some buffer decodes to it. */
  lemma {:induction false} DecodedMember<R>(bufs: seq<Buffer>, decode: Buffer -> Result<R, Fault>, x: R)
    ensures x in Decoded(bufs, decode) <==> exists i :: 0 <= i < |bufs| && decode(bufs[i]) == Success(x)
  {
    if bufs != [] {
      var init := bufs[..|bufs| - 1];
      DecodedMember(init, decode, x);
      if exists i :: 0 <= i < |init| && decode(init[i]) == Success(x) {
        var i :| 0 <= i < |init| && decode(init[i]) == Success(x);
        assert bufs[i] == init[i];
      }
      if exists i :: 0 <= i < |bufs| && decode(bufs[i]) == Success(x) {
        var i :| 0 <= i < |bufs| && decode(bufs[i]) == Success(x);
        if i < |init| {
          assert init[i] == bufs[i];
        }
      }
    }
  }

  /** `for i, buf in enumerate(bufs): try ... except: print(...)`: decode
      each buffer; a failing buffer is skipped after the handler has printed
      its record number and time stamp. The handler itself re-extracts the
      time stamp: if that raises, the exception leaves the function. */
  method DecodeBatch<R>(bufs: seq<Buffer>, decode: Buffer -> Result<R, Fault>, diagnose: Buffer -> Result<string, Fault>)
    returns (r: Result<seq<R>, Fault>)
    ensures r.Success? <==> forall i :: 0 <= i < |bufs| ==> Isolated(decode, diagnose, bufs[i])
    ensures r.Success? ==> r.value == Decoded(bufs, decode)
    ensures r.Failure? ==>
      exists i :: (0 <= i < |bufs| && decode(bufs[i]).Failure?
                   && diagnose(bufs[i]) == Failure(r.error)
                   && forall j :: 0 <= j < i ==> Isolated(decode, diagnose, bufs[j]))
  {
    var records: seq<R> := [];
    for i := 0 to |bufs|
      invariant records == Decoded(bufs[..i], decode)
      invariant forall j :: 0 <= j < i ==> Isolated(decode, diagnose, bufs[j])
    {
      var d := decode(bufs[i]);
      if d.Success? {
        records := records + [d.value];
      } else {
        var message := diagnose(bufs[i]);
        if message.Failure? {
          return Failure(message.error);
        }
      }
      assert bufs[..i + 1][..i] == bufs[..i];
    }
    assert bufs[..|bufs|] == bufs;
    return Success(records);
  }

  /** The handler's message: `Time(extract(buf, xml['Timestamp']), format='lv').iso`.
      A buffer whose time stamp cannot be read fails to decode as either
      record type and then also makes the handler raise: such a buffer ends
      the whole batch. */
  function Diagnostic(svc: Services, xml: Schema, buf: Buffer): (r: Result<string, Fault>)
    ensures r.Success? ==> TimeField(svc, xml, buf, "Timestamp").Success?
    ensures TimeField(svc, xml, buf, "Timestamp").Failure? ==>
      && r == Failure(TimeField(svc, xml, buf, "Timestamp").error)
      && DecodeRefcal(svc, xml, buf).Failure? && DecodePhacal(svc, xml, buf).Failure?
  {
    var t :- TimeField(svc, xml, buf, "Timestamp");
    svc.iso(t)
  }

  function Diagnoser(svc: Services, xml: Schema): Buffer -> Result<string, Fault> {
    buf => Diagnostic(svc, xml, buf)
  }

  function RefcalDecoder(svc: Services, xml: Schema): Buffer -> Result<CalFields, Fault> {
    buf => DecodeRefcal(svc, xml, buf)
  }

  function PhacalDecoder(svc: Services, xml: Schema): Buffer -> Result<Phacal, Fault> {
    buf => DecodePhacal(svc, xml, buf)
  }

  /** What the two functions return: None, a list of records, or one record. */
  datatype Output<R> = NoneReturned | Records(records: seq<R>) | Record(record: R)

  /** The outcome the dispatch on `bufs` promises for a decoder. */
  ghost predicate Dispatched<R>(bufs: Bufs, decode: Buffer -> Result<R, Fault>, diagnose: Buffer -> Result<string, Fault>,
                          r: Result<Output<R>, Fault>) {
    match bufs
    case OtherKind => r == Success(NoneReturned)
    case Bytes(b) =>
      && (r.Success? <==> decode(b).Success?)
      && (r.Success? ==> r.value == Record(decode(b).value))
      && (r.Failure? ==> r.error == decode(b).error)
    case BufferArray(items) =>
      && (r.Success? <==> forall i :: 0 <= i < |items| ==> Isolated(decode, diagnose, items[i]))
      && (r.Success? ==> r.value == Records(Decoded(items, decode)))
      && (r.Failure? ==>
            exists i :: (0 <= i < |items| && decode(items[i]).Failure?
                         && diagnose(items[i]) == Failure(r.error)
                         && forall j :: 0 <= j < i ==> Isolated(decode, diagnose, items[j])))
  }

  /** Shared dispatch of both functions on the type of `bufs`. */
  method Dispatch<R>(bufs: Bufs, decode: Buffer -> Result<R, Fault>, diagnose: Buffer -> Result<string, Fault>)
    returns (r: Result<Output<R>, Fault>)
    ensures Dispatched(bufs, decode, diagnose, r)
  {
    match bufs
    case BufferArray(items) =>
      var batch := DecodeBatch(items, decode, diagnose);
      r := if batch.Success? then Success(Records(batch.value)) else Failure(batch.error);
    case Bytes(b) =>
      var one := decode(b);
      r := if one.Success? then Success(Record(one.value)) else Failure(one.error);
    case OtherKind =>
      r := Success(NoneReturned);
  }

  /** `sql2refcalX(trange)`: read type-8 records and decode them. */
  method Sql2RefcalX(svc: Services) returns (r: Result<Output<CalFields>, Fault>)
    ensures svc.readCalX(RefcalType).Failure? ==> r == Failure(svc.readCalX(RefcalType).error)
    ensures svc.readCalX(RefcalType).Success? ==>
      var xml := svc.readCalX(RefcalType).value.0;
      Dispatched(svc.readCalX(RefcalType).value.1, RefcalDecoder(svc, xml), Diagnoser(svc, xml), r)
  {
    var read := svc.readCalX(RefcalType);
    if read.Failure? {
      return Failure(read.error);
    }
    var (xml, bufs) := read.value;
    r := Dispatch(bufs, RefcalDecoder(svc, xml), Diagnoser(svc, xml));
  }

  /** `sql2phacalX(trange)`: read type-9 records and decode them. */
  method Sql2PhacalX(svc: Services) returns (r: Result<Output<Phacal>, Fault>)
    ensures svc.readCalX(PhacalType).Failure? ==> r == Failure(svc.readCalX(PhacalType).error)
    ensures svc.readCalX(PhacalType).Success? ==>
      var xml := svc.readCalX(PhacalType).value.0;
      Dispatched(svc.readCalX(PhacalType).value.1, PhacalDecoder(svc, xml), Diagnoser(svc, xml), r)
  {
    var read := svc.readCalX(PhacalType);
    if read.Failure? {
      return Failure(read.error);
    }
    var (xml, bufs) := read.value;
    r := Dispatch(bufs, PhacalDecoder(svc, xml), Diagnoser(svc, xml));
  }

  /** The batch and the single path build the same record from the same
      buffer: a one-buffer batch that succeeds holds exactly the record the
      bytes path returns. */
  lemma BatchOfOneIsSingle<R>(b: Buffer, decode: Buffer -> Result<R, Fault>, diagnose: Buffer -> Result<string, Fault>,
                              rb: Result<Output<R>, Fault>, rs: Result<Output<R>, Fault>)
    requires Dispatched(BufferArray([b]), decode, diagnose, rb) && Dispatched(Bytes(b), decode, diagnose, rs)
    requires decode(b).Success?
    ensures rb.Success? && rs.Success? && rb.value.records == [rs.value.record]
  {
    assert [b][..0] == [];
    assert Isolated(decode, diagnose, [b][0]);
  }
}
