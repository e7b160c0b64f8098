/** The server's send buffer: filled by reads, sent as a C string. */
module SendBuffer {
  import opened Machine
  import opened Sequences

  const NUL: Byte := '\0'

  function Strlen(b: seq<Byte>): (n: nat)
    ensures n <= |b|
    ensures forall i :: 0 <= i < n ==> b[i] != NUL
    ensures n < |b| ==> b[n] == NUL
  {
    if b == [] || b[0] == NUL then 0 else 1 + Strlen(b[1..])
  }

  /** The bytes one send passes on: up to the first NUL, which may lie `beyond` the buffer. */
  function Sent(b: seq<Byte>, beyond: seq<Byte>): seq<Byte> {
    if Strlen(b) < |b| then b[..Strlen(b)] else b + beyond
  }

  /** A read overwrites the front of the buffer and leaves the rest as it was. */
  function Overlay(b: seq<Byte>, data: seq<Byte>): (r: seq<Byte>)
    requires |data| <= |b|
    ensures |r| == |b|
  {
    data + b[|data|..]
  }

  ghost predicate Fit(b: seq<Byte>, parts: seq<seq<Byte>>) {
    forall i :: 0 <= i < |parts| ==> |parts[i]| <= |b|
  }

  /** What is sent when each read is followed by a send. */
  function SentAll(b: seq<Byte>, parts: seq<seq<Byte>>, beyond: seq<Byte>): seq<Byte>
    requires Fit(b, parts)
    decreases parts
  {
    if parts == [] then []
    else
      var filled := Overlay(b, parts[0]);
      Sent(filled, beyond) + SentAll(filled, parts[1..], beyond)
  }

  function FilledBy(b: seq<Byte>, parts: seq<seq<Byte>>): (r: seq<Byte>)
    requires Fit(b, parts)
    ensures |r| == |b|
    decreases parts
  {
    if parts == [] then b else FilledBy(Overlay(b, parts[0]), parts[1..])
  }

  lemma {:induction false} SentAllStep(b: seq<Byte>, parts: seq<seq<Byte>>, data: seq<Byte>, beyond: seq<Byte>)
    requires Fit(b, parts) && |data| <= |b|
    ensures Fit(b, parts + [data])
    ensures FilledBy(b, parts + [data]) == Overlay(FilledBy(b, parts), data)
    ensures SentAll(b, parts + [data], beyond) ==
            SentAll(b, parts, beyond) + Sent(Overlay(FilledBy(b, parts), data), beyond)
    decreases parts
  {
    if parts == [] {
      assert [] + [data] == [data] && [data][1..] == [];
      var filled := Overlay(b, data);
      assert SentAll(filled, [], beyond) == [];
      assert SentAll(b, [data], beyond) == Sent(filled, beyond) + [];
    } else {
      var filled, rest := Overlay(b, parts[0]), parts[1..];
      var all := parts + [data];
      assert all[0] == parts[0] && all[1..] == rest + [data];
      SentAllStep(filled, rest, data, beyond);
      var first, last := Sent(filled, beyond), Sent(Overlay(FilledBy(filled, rest), data), beyond);
      assert first + (SentAll(filled, rest, beyond) + last) == first + SentAll(filled, rest, beyond) + last;
    }
  }

  /** Printable data in a buffer whose first `mark` bytes have been used. */
  ghost predicate Marked(b: seq<Byte>, mark: nat) {
    && mark <= |b|
    && (forall i :: 0 <= i < mark ==> b[i] != NUL)
    && (forall i :: mark <= i < |b| ==> b[i] == NUL)
  }

  ghost predicate Printable(parts: seq<seq<Byte>>) {
    forall i :: 0 <= i < |parts| ==> parts[i] != [] && NUL !in parts[i]
  }

  /** No read is shorter than one before it or than `mark`, and none fills the buffer to an end
      behind which more bytes lie. */
  ghost predicate Growing(parts: seq<seq<Byte>>, mark: nat, size: nat, beyond: seq<Byte>) {
    && (forall i, j :: 0 <= i < j < |parts| ==> |parts[i]| <= |parts[j]|)
    && (forall i :: 0 <= i < |parts| ==> mark <= |parts[i]| && (|parts[i]| < size || beyond == []))
  }

  lemma {:induction false} GrowingStep(data: seq<Byte>, rest: seq<seq<Byte>>, mark: nat, size: nat, beyond: seq<Byte>)
    ensures Growing([data] + rest, mark, size, beyond) <==>
            |data| >= mark && (|data| < size || beyond == []) && Growing(rest, |data|, size, beyond)
  {
    var parts := [data] + rest;
    assert parts[0] == data && forall i :: 0 <= i < |rest| ==> rest[i] == parts[i + 1];
    if Growing(parts, mark, size, beyond) {
      assert forall k :: 0 < k < |parts| ==> |parts[0]| <= |parts[k]|;
    }
  }

  /** A send passes on the bytes just read, and after them what longer reads left behind. */
  lemma {:induction false} SentOne(b: seq<Byte>, mark: nat, data: seq<Byte>, beyond: seq<Byte>)
    requires Marked(b, mark) && |data| <= |b| && data != [] && NUL !in data
    ensures var filled, mark' := Overlay(b, data), if |data| > mark then |data| else mark;
            && Marked(filled, mark')
            && data <= Sent(filled, beyond)
            && (|Sent(filled, beyond)| == |data| <==> |data| >= mark && (|data| < |b| || beyond == []))
  {
    var filled, mark' := Overlay(b, data), if |data| > mark then |data| else mark;
    forall i | 0 <= i < |filled|
      ensures filled[i] != NUL <==> i < mark'
    {
      if i < |data| {
        assert filled[i] == data[i] && data[i] in data;
      } else {
        assert filled[i] == b[i];
      }
    }
    assert mark' < |filled| ==> filled[mark'] == NUL;
    assert Strlen(filled) == mark';
    assert filled[..|data|] == data;
  }

  /** Of bytes with a NUL among them nothing from the first NUL on is sent. */
  lemma {:induction false} SentCut(b: seq<Byte>, data: seq<Byte>, i: nat, beyond: seq<Byte>)
    requires |data| <= |b| && i < |data| && data[i] == '\0' && forall j :: 0 <= j < i ==> data[j] != '\0'
    ensures Sent(Overlay(b, data), beyond) == data[..i]
  {
    var filled := Overlay(b, data);
    assert filled[i] == data[i] && forall j :: 0 <= j < i ==> filled[j] == data[j];
    assert Strlen(filled) == i;
  }

  /** What is sent is what was read exactly when no read is shorter than one before it and
      none fills the buffer; otherwise stale bytes go out as well. */
  lemma {:induction false} SentExact(b: seq<Byte>, mark: nat, parts: seq<seq<Byte>>, beyond: seq<Byte>)
    requires Marked(b, mark) && Fit(b, parts) && Printable(parts)
    ensures |SentAll(b, parts, beyond)| >= |Flatten(parts)|
    ensures SentAll(b, parts, beyond) == Flatten(parts) <==> Growing(parts, mark, |b|, beyond)
    decreases parts
  {
    if parts != [] {
      var data, rest := parts[0], parts[1..];
      var filled, mark' := Overlay(b, data), if |data| > mark then |data| else mark;
      SentOne(b, mark, data, beyond);
      SentExact(filled, mark', rest, beyond);
      assert parts == [data] + rest;
      GrowingStep(data, rest, mark, |b|, beyond);
      var first, later := Sent(filled, beyond), SentAll(filled, rest, beyond);
      if |first| == |data| {
        assert first == data && mark' == |data|;
        SameTail(data, later, Flatten(rest));
      }
    }
  }

  lemma {:induction false} SameTail(a: seq<Byte>, b: seq<Byte>, c: seq<Byte>)
    ensures a + b == a + c <==> b == c
  {
    assert (a + b)[|a|..] == b && (a + c)[|a|..] == c;
  }

  /** A short command behind a longer one: the end of the longer one goes out again. */
  lemma {:induction false} StaleBytesSent()
    ensures SentAll("\0\0\0\0", ["ab\n", "c\n"], []) == "ab\nc\n\n"
    ensures Flatten(["ab\n", "c\n"]) == "ab\nc\n"
  {
    var b, rest := "\0\0\0\0", ["ab\n", "c\n"][1..];
    assert rest == ["c\n"] && rest[1..] == [];
    var once := Overlay(b, "ab\n");
    assert once == "ab\n\0";
    var twice := Overlay(once, "c\n");
    assert twice == "c\n\n\0";
    StrlenIs(once, 3);
    StrlenIs(twice, 3);
    assert SentAll(twice, [], []) == [];
    assert SentAll(once, rest, []) == "c\n\n" + [];
    assert Flatten(rest) == "c\n" + [];
  }

  lemma {:induction false} StrlenIs(b: seq<Byte>, n: nat)
    requires n < |b| && b[n] == NUL && forall i :: 0 <= i < n ==> b[i] != NUL
    ensures Strlen(b) == n && Sent(b, []) == b[..n]
  {
  }
}
