/**
 Which byte strings the reader of messages accepts, stated by their parts, and which ones make it read behind their
 end.
 */
module AcceptedMessages {
  import opened Bytes
  import opened OscWire
  import opened ReceivedMessages

  /** Whole words of which the last one, and no other, ends in NUL. */
  predicate Words(s: bytes) {
    && |s| >= 4 && Aligned(|s|)
    && forall i :: 3 <= i < |s| && Aligned(i - 3) ==> (s[i] == 0 <==> i == |s| - 1)
  }

  /** A string with its padding, as the reader takes it: a word that starts with NUL is one by itself. */
  predicate Slot(s: bytes) {
    s != [] && if s[0] == 0 then |s| == 4 else Words(s)
  }

  lemma {:induction false} WordEndExactly(m: bytes, p: nat, q: nat)
    requires p < |m| && Aligned(|m| - p)
    ensures WordEnd(m, p) == Some(q) <==> p < q <= |m| && Words(m[p..q])
    decreases |m| - p
  {
    if p < q <= |m| && |m[p..q]| >= 4 {
      FirstWord(m[p..q]);
      assert m[p..q][3] == m[p + 3];
      if m[p + 3] != 0 && p + 4 < |m| {
        WordEndExactly(m, p + 4, q);
        NextWord(m[p..q]);
        assert m[p..q][4..] == m[p + 4..q];
      }
    }
  }

  lemma FirstWord(s: bytes)
    requires |s| >= 4
    ensures Words(s) ==> (s[3] == 0 <==> |s| == 4)
    ensures |s| == 4 && s[3] == 0 ==> Words(s)
  {
    assert Aligned(3 - 3);
  }

  /** Behind a word that does not end in NUL. */
  lemma NextWord(s: bytes)
    requires |s| >= 4 && s[3] != 0
    ensures Words(s) <==> Words(s[4..])
  {
    var rest := s[4..];
    FirstWord(s);
    if Words(rest) {
      forall i | 3 <= i < |s| && Aligned(i - 3) ensures s[i] == 0 <==> i == |s| - 1 {
        if i != 3 {
          assert s[i] == rest[i - 4];
        }
      }
    }
    if Words(s) {
      assert |rest| == |s| - 4 && Aligned(|rest|) && |rest| >= 4;
      forall i | 3 <= i < |rest| && Aligned(i - 3) ensures rest[i] == 0 <==> i == |rest| - 1 {
        assert Aligned(i + 4 - 3) && s[i + 4] == rest[i];
      }
    }
  }

  lemma {:induction false} Str4EndExactly(m: bytes, p: nat, q: nat)
    requires p <= |m| && Aligned(|m| - p)
    ensures Str4End(m, p) == Some(q) <==> p < q <= |m| && Slot(m[p..q])
  {
    if p < |m| {
      WordEndExactly(m, p, q);
    }
  }

  /** The bytes of one argument, by its type. Only a blob may reach beyond the end of the message. */
  predicate Span(m: bytes, tag: byte, from: nat, to: nat) {
    || (tag in NO_DATA_TAGS && to == from)
    || (tag in FOUR_BYTE_TAGS && to == from + 4 <= |m|)
    || (tag in EIGHT_BYTE_TAGS && to == from + 8 <= |m|)
    || (tag in STRING_TAGS && from < to <= |m| && Slot(m[from..to]))
    || (tag == TAG_BLOB && from + 4 <= |m| && to == from + 4 + RoundUp4(FromBigEndian32(m[from..from + 4])))
  }

  lemma {:induction false} SkipExactly(m: bytes, tag: byte, from: nat, to: nat)
    requires OnGrid(m, from)
    ensures Skip(m, tag, from) == Accepted(to) <==> Span(m, tag, from, to)
  {
    hide FromBigEndian32, RoundUp4, Str4End, Slot;
    if tag in STRING_TAGS && from < |m| {
      Str4EndExactly(m, from, to);
    }
  }

  /** The arguments announced by the tags between t and end lie one behind the other, between the positions a and to. */
  ghost predicate Spans(m: bytes, t: nat, end: nat, a: nat, to: nat) {
    exists ps: seq<nat> :: SpansAt(m, t, end, a, to, ps)
  }

  predicate SpansAt(m: bytes, t: nat, end: nat, a: nat, to: nat, ps: seq<nat>) {
    && t <= end <= |m| && |ps| == end - t + 1 && ps[0] == a && ps[end - t] == to
    && forall i :: t <= i < end ==> Span(m, m[i], ps[i - t], ps[i - t + 1])
  }

  lemma SpansCons(m: bytes, t: nat, end: nat, a: nat, next: nat, to: nat)
    requires t < end <= |m| && Span(m, m[t], a, next) && Spans(m, t + 1, end, next, to)
    ensures Spans(m, t, end, a, to)
  {
    hide Span;
    var ps :| SpansAt(m, t + 1, end, next, to, ps);
    var all := [a] + ps;
    forall i | t <= i < end ensures Span(m, m[i], all[i - t], all[i - t + 1]) {
      if i != t {
        assert all[i - t] == ps[i - (t + 1)] && all[i - t + 1] == ps[i - (t + 1) + 1];
      }
    }
    assert SpansAt(m, t, end, a, to, all);
  }

  lemma SpansTail(m: bytes, t: nat, end: nat, a: nat, to: nat) returns (next: nat)
    requires t < end <= |m| && Spans(m, t, end, a, to)
    ensures Span(m, m[t], a, next) && Spans(m, t + 1, end, next, to)
  {
    hide Span;
    var ps :| SpansAt(m, t, end, a, to, ps);
    next := ps[1];
    var rest := ps[1..];
    forall i | t + 1 <= i < end ensures Span(m, m[i], rest[i - (t + 1)], rest[i - (t + 1) + 1]) {
      assert rest[i - (t + 1)] == ps[i - t] && rest[i - (t + 1) + 1] == ps[i - t + 1];
    }
    assert Span(m, m[t], ps[t - t], ps[t - t + 1]);
    assert SpansAt(m, t + 1, end, next, to, rest);
  }

  lemma NoSpans(m: bytes, t: nat, a: nat, to: nat)
    requires t <= |m|
    ensures Spans(m, t, t, a, to) <==> a == to
  {
    if a == to {
      assert SpansAt(m, t, t, a, to, [a]);
    }
  }

  /** The tags from t on end at `end`, before the limit. */
  predicate TagsUpTo(m: bytes, t: nat, end: nat, limit: nat) {
    t < end < limit <= |m| && m[end] == 0 && forall i :: t < i < end ==> m[i] != 0
  }

  lemma {:induction false} TagsEndExactly(m: bytes, t: nat, limit: nat, a: nat, end: nat)
    requires t < limit <= |m| && limit <= a && OnGrid(m, a) && m[limit - 1] == 0
    ensures TagsEnd(m, t, limit, a) == Accepted(end) <==>
            TagsUpTo(m, t, end, limit) && exists to :: Spans(m, t, end, a, to)
    decreases limit - t
  {
    hide Skip, Span, Spans;
    var next := Skip(m, m[t], a);
    if TagsUpTo(m, t, end, limit) && exists to :: Spans(m, t, end, a, to) {
      var to :| Spans(m, t, end, a, to);
      var behind := SpansTail(m, t, end, a, to);
      SkipExactly(m, m[t], a, behind);
      if end != t + 1 {
        TagsEndExactly(m, t + 1, limit, behind, end);
      }
    } else if TagsEnd(m, t, limit, a) == Accepted(end) {
      SkipExactly(m, m[t], a, next.value);
      var to := next.value;
      if end == t + 1 {
        NoSpans(m, end, next.value, next.value);
      } else {
        TagsEndExactly(m, t + 1, limit, next.value, end);
        to :| Spans(m, t + 1, end, next.value, to);
      }
      SpansCons(m, t, end, a, next.value, to);
    }
  }

  /** An address and type tags behind a comma, which start at `begin` and behind which there is room for arguments. */
  predicate HeadParts(m: bytes, begin: nat, arguments: nat) {
    && Aligned(|m|) && 0 < begin < arguments <= |m|
    && Slot(m[..begin - 1])
    && Slot(m[begin - 1..arguments]) && m[begin - 1] == COMMA && m[begin] != 0
  }

  /** A message with arguments: an address, type tags behind a comma, and what they announce, in this order. */
  ghost predicate WithArguments(m: bytes, begin: nat, end: nat, arguments: nat) {
    && HeadParts(m, begin, arguments)
    && TagsUpTo(m, begin, end, arguments) && exists to :: Spans(m, begin, end, arguments, to)
  }

  /** A message without arguments: an address alone, or followed by a comma and a NUL and anything else. */
  ghost predicate WithoutArguments(m: bytes) {
    && Aligned(|m|)
    && (Slot(m) || exists t :: 0 < t < |m| - 1 && Slot(m[..t]) && m[t] == COMMA && m[t + 1] == 0)
  }

  lemma {:induction false} AddressExactly(m: bytes, t: nat)
    requires Aligned(|m|)
    ensures Str4End(m, 0) == Some(t) <==> 0 < t <= |m| && Slot(m[..t])
  {
    hide Str4End, Slot;
    Str4EndExactly(m, 0, t);
    if t <= |m| {
      assert m[0..t] == m[..t];
    }
  }

  /** The parts of a head. */
  lemma {:induction false} HeadExactly(m: bytes, begin: nat, arguments: nat)
    ensures HeadOf(m) == Accepted(Tagged(begin, arguments)) <==> HeadParts(m, begin, arguments)
    ensures HeadOf(m) == Accepted(Bare) <==> WithoutArguments(m)
  {
    hide Str4End, Slot;
    if Aligned(|m|) {
      forall t: nat ensures Str4End(m, 0) == Some(t) <==> 0 < t <= |m| && Slot(m[..t]) {
        AddressExactly(m, t);
      }
      assert m[..|m|] == m;
      EmptyIsNoSlot();
      var t := Str4End(m, 0);
      if t.Some? {
        Str4EndExactly(m, t.value, arguments);
      }
    }
  }

  lemma EmptyIsNoSlot()
    ensures !Slot([])
  {
  }

  /** The messages that opening accepts, and the parts it finds in them. */
  lemma {:induction false} OpenedExactly(m: bytes, begin: nat, end: nat, arguments: nat)
    ensures Opened(m) == Accepted(Arguments(begin, end, arguments)) <==> WithArguments(m, begin, end, arguments)
    ensures Opened(m) == Accepted(NoArguments) <==> WithoutArguments(m)
  {
    hide HeadOf, TagsEnd, Spans, Slot, Aligned, WithoutArguments;
    HeadExactly(m, begin, arguments);
    if HeadOf(m) == Accepted(Tagged(begin, arguments)) {
      TagsEndExactly(m, begin, arguments, arguments, end);
    }
  }

  // ----- the read behind a message

  /** Behind the arguments of the tags up to t, of which each passes its check, there is a blob without its size. */
  ghost predicate CutOff(m: bytes, begin: nat, t: nat, a: nat, to: nat) {
    begin <= t < |m| && Spans(m, begin, t, a, to) && m[t] == TAG_BLOB && to + 4 > |m|
  }

  ghost predicate CutOffBefore(m: bytes, begin: nat, limit: nat, a: nat) {
    exists t: nat, to: nat :: t < limit && CutOff(m, begin, t, a, to)
  }

  lemma {:induction false} TagsCutOff(m: bytes, begin: nat, limit: nat, a: nat)
    requires begin < limit <= |m| && limit <= a && OnGrid(m, a) && m[limit - 1] == 0
    ensures TagsEnd(m, begin, limit, a) == Ended(Overread) <==> CutOffBefore(m, begin, limit, a)
    decreases limit - begin
  {
    hide Skip, Span, Spans;
    OverreadsAt(m, m[begin], a);
    NoSpans(m, begin, a, a);
    var next := Skip(m, m[begin], a);
    if next == Ended(Overread) {
      assert CutOff(m, begin, begin, a, a);
    } else if TagsEnd(m, begin, limit, a) == Ended(Overread) {
      SkipExactly(m, m[begin], a, next.value);
      TagsCutOff(m, begin + 1, limit, next.value);
      var t: nat, to: nat :| t < limit && CutOff(m, begin + 1, t, next.value, to);
      SpansCons(m, begin, t, a, next.value, to);
      assert CutOff(m, begin, t, a, to);
    } else if CutOffBefore(m, begin, limit, a) {
      var t: nat, to: nat :| t < limit && CutOff(m, begin, t, a, to);
      NoSpans(m, begin, a, to);
      var behind := SpansTail(m, begin, t, a, to);
      SkipExactly(m, m[begin], a, behind);
      CutOffTag(m, begin + 1, t, behind, to);
      assert CutOff(m, begin + 1, t, behind, to);
      TagsCutOff(m, begin + 1, limit, behind);
    }
  }

  /** The tags up to the blob are tags, so that the loop goes on. */
  lemma CutOffTag(m: bytes, begin: nat, t: nat, a: nat, to: nat)
    requires begin <= t < |m| && Spans(m, begin, t, a, to) && m[t] == TAG_BLOB
    ensures m[begin] != 0
  {
    if begin < t {
      var next := SpansTail(m, begin, t, a, to);
    }
  }

  lemma {:induction false} OverreadsAt(m: bytes, tag: byte, a: nat)
    requires OnGrid(m, a)
    ensures Skip(m, tag, a) == Ended(Overread) <==> tag == TAG_BLOB && a + 4 > |m|
  {
  }

  /**
   Opening reads behind the message exactly if the arguments announced by some of the first tags lie one behind the
   other, and the next tag is that of a blob of which fewer than four bytes are left.
   */
  lemma {:induction false} ReadsBehind(m: bytes)
    ensures Opened(m) == Ended(Overread) <==>
            exists begin: nat, arguments: nat ::
              HeadParts(m, begin, arguments) && CutOffBefore(m, begin, arguments, arguments)
  {
    hide HeadOf, TagsEnd, CutOffBefore, HeadParts;
    forall begin: nat, arguments: nat
      ensures HeadOf(m) == Accepted(Tagged(begin, arguments)) <==> HeadParts(m, begin, arguments)
    {
      HeadExactly(m, begin, arguments);
    }
    if HeadOf(m).Accepted? && HeadOf(m).value.Tagged? {
      var Tagged(begin, arguments) := HeadOf(m).value;
      TagsCutOff(m, begin, arguments, arguments);
    }
  }

  /** For instance, the address "/a" and the tag of a blob that is not there. */
  lemma {:induction false} MissingBlob()
    ensures Opened([47, 97, 0, 0, COMMA, TAG_BLOB, 0, 0]) == Ended(Overread)
  {
    var m: bytes := [47, 97, 0, 0, COMMA, TAG_BLOB, 0, 0];
    assert Aligned(8) && WordEnd(m, 0) == Some(4) && WordEnd(m, 4) == Some(8);
    assert HeadOf(m) == Accepted(Tagged(5, 8));
    assert TagsEnd(m, 5, 8, 8) == Ended(Overread);
  }
}
