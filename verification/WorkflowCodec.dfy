/** The byte formats of `workflow.rs`: task payloads, park records and message ids. */
module WorkflowCodec {
  import opened Machine

  type Bytes = seq<byte>

  newtype u16 = x: int | 0 <= x < 0x1_0000

  // ---------------------------------------------------------------------------
  // Little-endian integers
  // ---------------------------------------------------------------------------

  /** `(n as u16).to_le_bytes()`, truncation included. */
  function Le16(n: nat): (r: Bytes)
    ensures |r| == 2
  {
    [(n % 256) as byte, (n / 256 % 256) as byte]
  }

  function FromLe16(a: byte, b: byte): (n: nat)
    ensures n < 0x1_0000
  {
    a as nat + 256 * b as nat
  }

  /** `(n as u32).to_le_bytes()`, truncation included. */
  function Le32(n: nat): (r: Bytes)
    ensures |r| == 4
  {
    Le16(n % 0x1_0000) + Le16(n / 0x1_0000 % 0x1_0000)
  }

  function FromLe32(a: byte, b: byte, c: byte, d: byte): nat {
    FromLe16(a, b) + 0x1_0000 * FromLe16(c, d)
  }

  lemma Le16RoundTrip(n: nat)
    ensures FromLe16(Le16(n)[0], Le16(n)[1]) == n % 0x1_0000
  {
  }

  lemma Le16Onto(a: byte, b: byte)
    ensures Le16(FromLe16(a, b)) == [a, b]
  {
  }

  lemma Le32RoundTrip(n: nat)
    ensures FromLe32(Le32(n)[0], Le32(n)[1], Le32(n)[2], Le32(n)[3]) == n % 0x1_0000_0000
  {
    hide Le16, FromLe16;
    Le16RoundTrip(n % 0x1_0000);
    Le16RoundTrip(n / 0x1_0000 % 0x1_0000);
    HalvesMakeWord(n);
  }

  lemma Le32Value(n: nat)
    ensures var r := Le32(n);
            r[0] as nat + 0x100 * r[1] as nat + 0x1_0000 * r[2] as nat + 0x100_0000 * r[3] as nat == n % 0x1_0000_0000
  {
    Le32RoundTrip(n);
    hide Le16, Le32;
  }

  lemma HalvesMakeWord(n: nat)
    ensures n % 0x1_0000_0000 == n % 0x1_0000 + 0x1_0000 * (n / 0x1_0000 % 0x1_0000)
  {
  }

  lemma Le32Onto(a: byte, b: byte, c: byte, d: byte)
    ensures Le32(FromLe32(a, b, c, d)) == [a, b, c, d]
  {
    hide Le16, FromLe16;
    Le16Onto(a, b);
    Le16Onto(c, d);
    HalvesOf(FromLe16(a, b), FromLe16(c, d));
  }

  lemma HalvesOf(x: nat, y: nat)
    requires x < 0x1_0000 && y < 0x1_0000
    ensures (x + 0x1_0000 * y) % 0x1_0000 == x && (x + 0x1_0000 * y) / 0x1_0000 % 0x1_0000 == y
  {
  }

  // ---------------------------------------------------------------------------
  // Task payloads: [id length: 2][id][step: 2][attempt: 1][context]
  // ---------------------------------------------------------------------------

  datatype Task = Task(instance: Bytes, step: u16, attempt: byte, context: Bytes)

  function EncodeTask(t: Task): Bytes {
    Le16(|t.instance|) + t.instance + Le16(t.step as nat) + [t.attempt] + t.context
  }

  function DecodeTask(p: Bytes): Option<Task> {
    if |p| < 5 then None
    else
      var n := FromLe16(p[0], p[1]);
      if |p| < n + 5 then None
      else Some(Task(p[2..2 + n], FromLe16(p[2 + n], p[3 + n]) as u16, p[4 + n], p[n + 5..]))
  }

  /** The encoder, pushing into a buffer. */
  method WriteTask(t: Task) returns (buf: Bytes)
    ensures buf == EncodeTask(t)
  {
    buf := [];
    buf := buf + Le16(|t.instance|);
    buf := buf + t.instance;
    buf := buf + Le16(t.step as nat);
    buf := buf + [t.attempt];
    buf := buf + t.context;
  }

  /** The bytes of a task, field by field, numbers low byte first. */
  lemma TaskLayout(t: Task)
    ensures var p, n := EncodeTask(t), |t.instance|;
            && |p| == n + 5 + |t.context|
            && p[0] as nat + 256 * p[1] as nat == n % 0x1_0000
            && p[2..2 + n] == t.instance
            && p[2 + n] as nat + 256 * p[3 + n] as nat == t.step as nat
            && p[4 + n] == t.attempt
            && p[n + 5..] == t.context
  {
    var p, n := EncodeTask(t), |t.instance|;
    assert p[0] == Le16(n)[0] && p[1] == Le16(n)[1];
    assert p[2 + n] == Le16(t.step as nat)[0] && p[3 + n] == Le16(t.step as nat)[1];
    Le16RoundTrip(n);
    Le16RoundTrip(t.step as nat);
    hide Le16;
    assert p[2..2 + n] == t.instance && p[n + 5..] == t.context;
  }

  /** What decoding an encoded task yields, however long its id is: an id of `n` bytes is cut to
      `n mod 65536`, and what was cut is read as the fields that follow. The source reads the id with
      `from_utf8_lossy`, which this model leaves out: an id cut inside a character, or one that was not
      UTF-8, comes out changed and perhaps of another length. */
  lemma DecodedIdLength(t: Task)
    ensures var r := DecodeTask(EncodeTask(t)); r.Some? && |r.value.instance| == |t.instance| % 0x1_0000
  {
    var p := EncodeTask(t);
    Le16RoundTrip(|t.instance|);
    assert p[0] == Le16(|t.instance|)[0] && p[1] == Le16(|t.instance|)[1];
  }

  /** Decoding undoes encoding exactly when the instance id is at most 65535 bytes long. */
  lemma TaskRoundTrip(t: Task)
    ensures DecodeTask(EncodeTask(t)) == Some(t) <==> |t.instance| <= 0xFFFF
  {
    hide Le16, FromLe16;
    DecodedIdLength(t);
    if |t.instance| <= 0xFFFF {
      var n := |t.instance|;
      var p := EncodeTask(t);
      Le16RoundTrip(n);
      Le16RoundTrip(t.step as nat);
      assert p[0] == Le16(n)[0] && p[1] == Le16(n)[1];
      assert p[2..2 + n] == t.instance;
      assert p[2 + n] == Le16(t.step as nat)[0] && p[3 + n] == Le16(t.step as nat)[1];
      assert p[4 + n] == t.attempt;
      assert p[n + 5..] == t.context;
    }
  }

  /** Whatever decodes was the encoding of what it decodes to, for ids as bytes. The lossy reading of an
      id that is not UTF-8 does not encode to the same payload again. */
  lemma TaskDecodesUniquely(p: Bytes)
    ensures DecodeTask(p).Some? ==> EncodeTask(DecodeTask(p).value) == p
    ensures DecodeTask(p).None? <==> |p| < 5 || |p| < FromLe16(p[0], p[1]) + 5
  {
    if DecodeTask(p).Some? {
      var n := FromLe16(p[0], p[1]);
      Le16Onto(p[0], p[1]);
      Le16Onto(p[2 + n], p[3 + n]);
      assert p == [p[0], p[1]] + p[2..2 + n] + [p[2 + n], p[3 + n]] + [p[4 + n]] + p[n + 5..];
    }
  }

  // ---------------------------------------------------------------------------
  // Park records: [step: 2][state length: 4][state][context]
  // ---------------------------------------------------------------------------

  datatype Park = Park(step: u16, state: Bytes, context: Bytes)

  function EncodePark(k: Park): Bytes {
    Le16(k.step as nat) + Le32(|k.state|) + k.state + k.context
  }

  function DecodePark(p: Bytes): Option<Park> {
    if |p| < 6 then None
    else
      var n := FromLe32(p[2], p[3], p[4], p[5]);
      if |p| < 6 + n then None
      else Some(Park(FromLe16(p[0], p[1]) as u16, p[6..6 + n], p[6 + n..]))
  }

  method WritePark(k: Park) returns (buf: Bytes)
    ensures buf == EncodePark(k)
  {
    buf := [];
    buf := buf + Le16(k.step as nat);
    buf := buf + Le32(|k.state|);
    buf := buf + k.state;
    buf := buf + k.context;
  }

  /** The bytes of a park record, field by field, numbers low byte first. */
  lemma ParkLayout(k: Park)
    ensures var p, n := EncodePark(k), |k.state|;
            && |p| == 6 + n + |k.context|
            && p[0] as nat + 256 * p[1] as nat == k.step as nat
            && p[2] as nat + 0x100 * p[3] as nat + 0x1_0000 * p[4] as nat + 0x100_0000 * p[5] as nat == n % 0x1_0000_0000
            && p[6..6 + n] == k.state
            && p[6 + n..] == k.context
  {
    hide Le16, Le32;
    var p, n := EncodePark(k), |k.state|;
    Le16RoundTrip(k.step as nat);
    Le32Value(n);
    assert p[0] == Le16(k.step as nat)[0] && p[1] == Le16(k.step as nat)[1];
    assert p[2] == Le32(n)[0] && p[3] == Le32(n)[1] && p[4] == Le32(n)[2] && p[5] == Le32(n)[3];
    assert p[6..6 + n] == k.state && p[6 + n..] == k.context;
  }

  /** Decoding undoes encoding exactly when the state is under 2^32 bytes. */
  lemma ParkRoundTrip(k: Park)
    ensures DecodePark(EncodePark(k)) == Some(k) <==> |k.state| < 0x1_0000_0000
  {
    hide Le16, FromLe16, Le32, FromLe32;
    var n := |k.state|;
    var p := EncodePark(k);
    Le32RoundTrip(n);
    Le16RoundTrip(k.step as nat);
    assert p[0] == Le16(k.step as nat)[0] && p[1] == Le16(k.step as nat)[1];
    assert p[2] == Le32(n)[0] && p[3] == Le32(n)[1] && p[4] == Le32(n)[2] && p[5] == Le32(n)[3];
    if n < 0x1_0000_0000 {
      assert p[6..6 + n] == k.state;
      assert p[6 + n..] == k.context;
    }
  }

  lemma ParkDecodesUniquely(p: Bytes)
    ensures DecodePark(p).Some? ==> EncodePark(DecodePark(p).value) == p
  {
    if DecodePark(p).Some? {
      var n := FromLe32(p[2], p[3], p[4], p[5]);
      Le16Onto(p[0], p[1]);
      Le32Onto(p[2], p[3], p[4], p[5]);
      assert p == [p[0], p[1]] + [p[2], p[3], p[4], p[5]] + p[6..6 + n] + p[6 + n..];
    }
  }
}

/** Message ids on the task stream, and that they identify what they were built from. */
module WorkflowIds {
  import opened Machine
  import opened WorkflowCodec

  const COLON: byte := 58

  /** What a message on the task stream is about. */
  datatype Key =
    | StepKey(instance: Bytes, step: nat, attempt: nat)
    | CompKey(instance: Bytes, index: nat)
    | TimeoutKey(instance: Bytes, step: nat)
    | ResumeKey(instance: Bytes, sequence: nat)
    | CancelKey(instance: Bytes)

  const WF: Bytes := [119, 102, 58]                          // wf:
  const COMP: Bytes := [99, 111, 109, 112]                   // comp
  const TIMEOUT: Bytes := [116, 105, 109, 101, 111, 117, 116] // timeout
  const RESUME: Bytes := [114, 101, 115, 117, 109, 101]      // resume
  const CANCEL: Bytes := [99, 97, 110, 99, 101, 108]         // cancel

  /** Decimal notation. */
  function Digits(n: nat): (r: Bytes)
    ensures |r| > 0 && forall i | 0 <= i < |r| :: 48 <= r[i] <= 57
  {
    if n < 10 then [(48 + n) as byte] else Digits(n / 10) + [(48 + n % 10) as byte]
  }

  function ValueOf(s: Bytes): int {
    if s == [] then 0 else 10 * ValueOf(s[..|s| - 1]) + (s[|s| - 1] as int - 48)
  }

  lemma {:induction false} DigitsHaveValue(n: nat)
    ensures ValueOf(Digits(n)) == n
  {
    if n < 10 {
      assert Digits(n)[..0] == [];
    } else {
      DigitsHaveValue(n / 10);
      assert Digits(n)[..|Digits(n)| - 1] == Digits(n / 10);
    }
  }

  lemma DigitsInjective(m: nat, n: nat)
    requires Digits(m) == Digits(n)
    ensures m == n
  {
    DigitsHaveValue(m);
    DigitsHaveValue(n);
  }

  /** `front:field` */
  function Field(front: Bytes, field: Bytes): Bytes {
    front + [COLON] + field
  }

  function MsgId(k: Key): Bytes {
    match k
    case StepKey(i, step, attempt) => Field(Field(WF + i, Digits(step)), Digits(attempt))
    case CompKey(i, index) => Field(Field(WF + i, COMP), Digits(index))
    case TimeoutKey(i, step) => Field(Field(WF + i, TIMEOUT), Digits(step))
    case ResumeKey(i, sequence) => Field(Field(WF + i, RESUME), Digits(sequence))
    case CancelKey(i) => Field(WF + i, CANCEL)
  }

  /** The last field can be read back, whatever colons come before it. */
  lemma LastFieldUnique(x: Bytes, y: Bytes, x': Bytes, y': Bytes)
    requires COLON !in y && COLON !in y' && Field(x, y) == Field(x', y')
    ensures x == x' && y == y'
  {
    if |x| < |x'| {
      ShorterFrontClashes(x, y, x', y');
    } else if |x'| < |x| {
      ShorterFrontClashes(x', y', x, y);
    }
    assert Field(x, y)[..|x|] == x && Field(x, y)[|x| + 1..] == y;
    assert Field(x', y')[..|x'|] == x' && Field(x', y')[|x'| + 1..] == y';
  }

  lemma ShorterFrontClashes(x: Bytes, y: Bytes, x': Bytes, y': Bytes)
    requires Field(x, y) == Field(x', y') && |x| < |x'|
    ensures COLON in y
  {
    assert Field(x', y')[|x'|] == COLON;
    assert Field(x, y)[|x'|] == y[|x'| - |x| - 1];
  }

  /** The next to last field of an id, where it has one: a step number or a word. */
  function Middle(k: Key): Bytes {
    match k
    case StepKey(_, step, _) => Digits(step)
    case CompKey(_, _) => COMP
    case TimeoutKey(_, _) => TIMEOUT
    case ResumeKey(_, _) => RESUME
    case CancelKey(_) => []
  }

  function Last(k: Key): Bytes {
    match k
    case StepKey(_, _, attempt) => Digits(attempt)
    case CompKey(_, index) => Digits(index)
    case TimeoutKey(_, step) => Digits(step)
    case ResumeKey(_, sequence) => Digits(sequence)
    case CancelKey(_) => CANCEL
  }

  lemma FieldsHaveNoColon(k: Key)
    ensures COLON !in Middle(k) && COLON !in Last(k)
    ensures k.CancelKey? <==> Last(k) == CANCEL
  {
    if !k.CancelKey? {
      assert 48 <= Last(k)[0] <= 57;
    }
  }

  /** A message id determines the instance, the kind and the numbers it was built from, even when
      instance ids contain colons. */
  lemma MsgIdInjective(a: Key, b: Key)
    requires MsgId(a) == MsgId(b)
    ensures a == b
  {
    FieldsHaveNoColon(a);
    FieldsHaveNoColon(b);
    var fa := if a.CancelKey? then WF + a.instance else Field(WF + a.instance, Middle(a));
    var fb := if b.CancelKey? then WF + b.instance else Field(WF + b.instance, Middle(b));
    LastFieldUnique(fa, Last(a), fb, Last(b));
    if a.CancelKey? {
      SamePrefix(a.instance, b.instance);
    } else {
      LastFieldUnique(WF + a.instance, Middle(a), WF + b.instance, Middle(b));
      SamePrefix(a.instance, b.instance);
      SameMiddle(a, b);
    }
  }

  lemma SamePrefix(i: Bytes, j: Bytes)
    requires WF + i == WF + j
    ensures i == j
  {
    assert (WF + i)[3..] == i && (WF + j)[3..] == j;
  }

  lemma SameMiddle(a: Key, b: Key)
    requires !a.CancelKey? && !b.CancelKey? && a.instance == b.instance
    requires Middle(a) == Middle(b) && Last(a) == Last(b)
    ensures a == b
  {
    if a.StepKey? {
      assert 48 <= Middle(a)[0] <= 57;
    }
    if b.StepKey? {
      assert 48 <= Middle(b)[0] <= 57;
    }
    match a
    case StepKey(_, s, n) =>
      if b.StepKey? {
        DigitsInjective(s, b.step);
        DigitsInjective(n, b.attempt);
      }
    case CompKey(_, n) =>
      if b.CompKey? { DigitsInjective(n, b.index); }
    case TimeoutKey(_, n) =>
      if b.TimeoutKey? { DigitsInjective(n, b.step); }
    case ResumeKey(_, n) =>
      if b.ResumeKey? { DigitsInjective(n, b.sequence); }
  }

  /** The ids as text, for the instance `a:b`: `wf:a:b:3:12`, `wf:a:b:comp:0`, `wf:a:b:timeout:7`,
      `wf:a:b:resume:40` and `wf:a:b:cancel`. */
  lemma IdsAsText()
    ensures var i: Bytes := [97, 58, 98]; var front: Bytes := [119, 102, 58, 97, 58, 98, 58];
            && MsgId(StepKey(i, 3, 12)) == front + [51, 58, 49, 50]
            && MsgId(CompKey(i, 0)) == front + [99, 111, 109, 112, 58, 48]
            && MsgId(TimeoutKey(i, 7)) == front + [116, 105, 109, 101, 111, 117, 116, 58, 55]
            && MsgId(ResumeKey(i, 40)) == front + [114, 101, 115, 117, 109, 101, 58, 52, 48]
            && MsgId(CancelKey(i)) == front + [99, 97, 110, 99, 101, 108]
  {
    OneDigit(3);
    OneDigit(0);
    OneDigit(7);
    OneDigit(1);
    OneDigit(4);
    TwoDigits(1, 2);
    TwoDigits(4, 0);
    hide Digits;
  }

  lemma OneDigit(n: nat)
    requires n < 10
    ensures Digits(n) == [(48 + n) as byte]
  {
  }

  lemma TwoDigits(n: nat, m: nat)
    requires 0 < n < 10 && m < 10
    ensures Digits(10 * n + m) == [(48 + n) as byte, (48 + m) as byte]
  {
    OneDigit(n);
  }
}
