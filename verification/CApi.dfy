/** The C interface of generator and verifier: bounded writes into the caller's buffers, whose
    lengths go in as capacities and come out as sizes. */
module CApi {
  import opened Octets

  const ARGUMENT_ERROR: nat := 1
  const INVALID_FORMAT: nat := 6
  const INTERNAL_ERROR: nat := 18

  /** An exception's class; only yacl exceptions carry a stack trace. */
  datatype Thrown = ArgumentError | InvalidFormat | OtherYacl | StdException

  function Code(t: Thrown): nat {
    match t
    case ArgumentError => ARGUMENT_ERROR
    case InvalidFormat => INVALID_FORMAT
    case _ => INTERNAL_ERROR
  }

  /** How the work inside the `try` ends before any buffer is touched. */
  datatype Work = Produced(json: Bytes) | Threw(kind: Thrown, what: Bytes, stack: Bytes)

  ghost predicate NulFree(text: Bytes) { forall i :: 0 <= i < |text| ==> text[i] != 0 }

  /** `strncpy`: cut at n bytes, or padded with zeros up to n. */
  function Copied(text: Bytes, n: nat): (r: Bytes)
    ensures |r| == n
  {
    if |text| >= n then text[..n] else text + Zeros(n - |text|)
  }

  /** Where the C string in a buffer ends. */
  function Strlen(b: Bytes): (r: nat)
    requires 0 in b
    ensures r < |b| && b[r] == 0 && forall i :: 0 <= i < r ==> b[i] != 0
  {
    if b[0] == 0 then 0 else 1 + Strlen(b[1..])
  }

  /** The capacity part of a text buffer after a call that copied `text` into it, or copied nothing. */
  function Terminated(before: Bytes, text: Option<Bytes>): (r: Bytes)
    requires |before| > 0
    ensures |r| == |before| && r[|before| - 1] == 0
  {
    (match text case Some(t) => Copied(t, |before|) case None => before)[|before| - 1 := 0]
  }

  /** A text without NUL leaves its longest prefix that fits, then zeros; the size is prefix plus one. */
  lemma TerminatedText(before: Bytes, text: Bytes)
    requires |before| > 0 && NulFree(text)
    ensures var n := Min(|text|, |before| - 1);
            && Terminated(before, Some(text)) == text[..n] + Zeros(|before| - n)
            && Strlen(Terminated(before, Some(text))) == n
  {
    var n := Min(|text|, |before| - 1);
    var r := Terminated(before, Some(text));
    assert r == text[..n] + Zeros(|before| - n);
    assert r[n] == 0;
    assert forall i :: 0 <= i < n ==> r[i] != 0;
  }

  method Strncpy(d: array<Byte>, n: nat, text: Bytes)
    requires n <= d.Length
    modifies d
    ensures d[..] == Copied(text, n) + old(d[n..])
  {
    for i := 0 to n
      invariant forall k :: 0 <= k < i ==> d[k] == if k < |text| then text[k] else 0
      invariant forall k :: i <= k < d.Length ==> d[k] == old(d[k])
    {
      d[i] := if i < |text| then text[i] else 0;
    }
    assert d[..] == Copied(text, n) + old(d[n..]);
  }

  method CStringLength(d: array<Byte>) returns (r: nat)
    requires 0 in d[..]
    ensures r == Strlen(d[..]) && r < d.Length
  {
    r := 0;
    while d[r] != 0
      invariant r < d.Length && forall i :: 0 <= i < r ==> d[i] != 0
      invariant exists i :: r <= i < d.Length && d[i] == 0
      decreases d.Length - r
    {
      r := r + 1;
    }
    assert d[..][r] == 0;
  }

  /** The end of every call: text copied if there is any, then a NUL at the last byte of the capacity. */
  method FinishText(d: array<Byte>, cap: nat, text: Option<Bytes>) returns (size: nat)
    requires cap <= d.Length
    modifies d
    ensures d[cap..] == old(d[cap..])
    ensures cap == 0 ==> size == 0
    ensures cap > 0 ==>
              && d[..cap] == Terminated(old(d[..cap]), text)
              && size == Strlen(d[..cap]) + 1 <= cap
  {
    if text.Some? { Strncpy(d, cap, text.value); }
    size := cap;
    if cap > 0 {
      assert d[..cap] == match text case Some(t) => Copied(t, cap) case None => old(d[..cap]);
      d[cap - 1] := 0;
      assert d[..cap] == Terminated(old(d[..cap]), text);
      assert d[..cap][cap - 1] == d[..][cap - 1] == 0;
      var len := CStringLength(d);
      StrlenPrefix(d[..], cap);
      assert d[..][..cap] == d[..cap];
      size := len + 1;
    }
  }

  lemma StrlenPrefix(b: Bytes, cap: nat)
    requires 0 < cap <= |b| && b[cap - 1] == 0
    ensures 0 in b && 0 in b[..cap] && Strlen(b) == Strlen(b[..cap])
  {
    assert b[..cap][cap - 1] == 0;
    var x, y := Strlen(b), Strlen(b[..cap]);
    assert b[..cap][y] == b[y];
    assert forall i :: 0 <= i < cap ==> b[..cap][i] == b[i];
  }

  /** What an exception leaves in the message buffer and, for yacl exceptions, in the details buffer. */
  function MessageOf(w: Work): Option<Bytes> { if w.Threw? then Some(w.what) else None }

  function DetailsOf(w: Work): Option<Bytes> { if w.Threw? && !w.kind.StdException? then Some(w.stack) else None }

  /** A payload that does not fit turns into an exception of its own. */
  function Effective(w: Work, cap: nat, tooSmall: Work): Work
    requires tooSmall.Threw?
  {
    if w.Produced? && cap < |w.json| then tooSmall else w
  }

  /** GenerateAttestationReport and ParseAttributesFromReport: the payload is written whole or not at
      all, its length changes only then, and no buffer is touched beyond its capacity. */
  method ReturnPayload(w: Work, tooSmall: Work, out: array<Byte>, outCap: nat, msg: array<Byte>, msgCap: nat,
                       details: array<Byte>, detailsCap: nat)
    returns (code: nat, outLen: nat, msgLen: nat, detailsLen: nat)
    requires tooSmall.Threw? && tooSmall.kind == OtherYacl
    requires out != msg && out != details && msg != details
    requires outCap <= out.Length && msgCap <= msg.Length && detailsCap <= details.Length
    modifies out, msg, details
    ensures code == 0 <==> w.Produced? && |w.json| <= outCap
    ensures code == 0 ==> outLen == |w.json| && out[..] == w.json + old(out[|w.json|..])
    ensures code != 0 ==> outLen == outCap && out[..] == old(out[..])
    ensures w.Produced? && |w.json| > outCap ==> code == 18
    ensures w.Threw? ==>
              code == if w.kind == ArgumentError then 1 else if w.kind == InvalidFormat then 6 else 18
    ensures msg[msgCap..] == old(msg[msgCap..]) && details[detailsCap..] == old(details[detailsCap..])
    ensures msgCap == 0 ==> msgLen == 0
    ensures msgCap > 0 ==>
              && msg[..msgCap] == Terminated(old(msg[..msgCap]), MessageOf(Effective(w, outCap, tooSmall)))
              && msgLen == Strlen(msg[..msgCap]) + 1 <= msgCap
    ensures detailsCap == 0 ==> detailsLen == 0
    ensures detailsCap > 0 ==>
              && details[..detailsCap] ==
                   Terminated(old(details[..detailsCap]), DetailsOf(Effective(w, outCap, tooSmall)))
              && detailsLen == Strlen(details[..detailsCap]) + 1 <= detailsCap
  {
    code, outLen := 0, outCap;
    var thrown := w;
    if w.Produced? {
      if outCap < |w.json| {
        thrown := tooSmall;
      } else {
        outLen := |w.json|;
        forall i | 0 <= i < |w.json| { out[i] := w.json[i]; }
        assert out[..] == w.json + old(out[|w.json|..]);
      }
    }
    if thrown.Threw? { code := Code(thrown.kind); }
    msgLen := FinishText(msg, msgCap, MessageOf(thrown));
    detailsLen := FinishText(details, detailsCap, DetailsOf(thrown));
  }

  /** On error the caller's message is the longest prefix of the text that fits with its NUL. */
  lemma ErrorMessage(w: Work, before: Bytes)
    requires w.Threw? && |before| > 0 && NulFree(w.what)
    ensures var n := Min(|w.what|, |before| - 1);
            var after := Terminated(before, MessageOf(w));
            after[..n] == w.what[..n] && after[n] == 0 && Strlen(after) + 1 == n + 1 <= |before|
  {
    TerminatedText(before, w.what);
  }

  /** The details are the stack trace in the same way, but a standard exception carries none and leaves
      the caller's bytes there. */
  lemma ErrorDetails(w: Work, before: Bytes)
    requires w.Threw? && |before| > 0 && NulFree(w.stack)
    ensures var after := Terminated(before, DetailsOf(w));
            if w.kind.StdException? then after[..|before| - 1] == before[..|before| - 1]
            else
              var n := Min(|w.stack|, |before| - 1);
              after[..n] == w.stack[..n] && after[n] == 0 && Strlen(after) == n
  {
    TerminatedText(before, w.stack);
  }

  /** On success the message buffer keeps what the caller had in it but for its last byte, and the
      size says where that ends. */
  lemma SuccessMessage(before: Bytes, json: Bytes)
    requires |before| > 0
    ensures var after := Terminated(before, MessageOf(Produced(json)));
            && after[..|before| - 1] == before[..|before| - 1]
            && (0 !in before[..|before| - 1] ==> Strlen(after) == |before| - 1)
            && (0 in before[..|before| - 1] ==> Strlen(after) == Strlen(before[..|before| - 1]))
  {
    var n := |before| - 1;
    var after := Terminated(before, MessageOf(Produced(json)));
    var kept := before[..n];
    assert after[..n] == kept;
    assert forall i :: 0 <= i < n ==> after[i] == kept[i];
    if 0 in kept { assert after[Strlen(kept)] == 0; }
  }
}
