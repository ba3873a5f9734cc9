/**
 Domain names on the wire (kernel/kernel/net.c): dns_write_name turns a dotted name into length-prefixed labels,
 dns_read_name turns labels, possibly reached through compression pointers, back into a dotted name.
 Sections 3.1 and 4.1.4 of RFC 1035.
 */
module Dns {
  import opened Checksum

  const DOT: Byte := 46
  const MAX_JUMPS: nat := 16

  // ---------------------------------------------------------------- dotted names and labels

  /** The length of the first label: everything up to a dot or the end. */
  function Run(s: seq<Byte>): (n: nat)
    ensures n <= |s| && (n < |s| ==> s[n] == DOT) && forall i :: 0 <= i < n ==> s[i] != DOT
  {
    if s == [] || s[0] == DOT then 0 else 1 + Run(s[1..])
  }

  /** What follows the first label and its dot. */
  function Rest(s: seq<Byte>): (r: seq<Byte>)
    ensures |r| <= |s| && (s != [] ==> |r| < |s|)
  {
    var n := Run(s);
    if n < |s| then s[n + 1..] else []
  }

  /** Every label has 1 to 63 bytes; one dot may end the name. */
  predicate Encodable(s: seq<Byte>)
    decreases |s|
  {
    s == [] || (1 <= Run(s) <= 63 && Encodable(Rest(s)))
  }

  /** The labels of a name on the wire. */
  function Labels(s: seq<Byte>): (w: seq<Byte>)
    requires Encodable(s)
    ensures s == [] ==> w == []
    ensures s != [] ==> |w| == |s| + (if s[|s| - 1] == DOT then 0 else 1)
    decreases |s|
  {
    if s == [] then [] else
    var n := Run(s);
    var r := Rest(s);
    assert n < |s| ==> (|r| > 0 ==> r[|r| - 1] == s[|s| - 1]);
    [n] + s[..n] + Labels(r)
  }

  function Stripped(s: seq<Byte>): seq<Byte> {
    if s != [] && s[|s| - 1] == DOT then s[..|s| - 1] else s
  }

  /** The labels seen so far as text, and one more. */
  function Joined(acc: seq<Byte>, part: seq<Byte>): seq<Byte> {
    if acc == [] then part else acc + [DOT] + part
  }

  /** The text begins no label with a dot. */
  predicate NoEmptyLabel(s: seq<Byte>) {
    (s != [] ==> s[0] != DOT) && forall i :: 0 <= i < |s| - 1 && s[i] == DOT ==> s[i + 1] != DOT
  }

  predicate DotAmong(s: seq<Byte>, i: nat)
    requires i + 64 <= |s|
  {
    exists k :: i <= k < i + 64 && s[k] == DOT
  }

  /** Any 64 bytes of the text hold a dot. */
  ghost predicate DotsNear(s: seq<Byte>) {
    forall i: nat :: i + 64 <= |s| ==> DotAmong(s, i)
  }

  /** In terms of the text: the names that can be written. */
  lemma {:induction false} EncodableIff(s: seq<Byte>)
    ensures Encodable(s) <==> NoEmptyLabel(s) && DotsNear(s)
    decreases |s|
  {
    if s != [] {
      hide NoEmptyLabel;
      hide DotsNear;
      EncodableIff(Rest(s));
      NoEmpty(s);
      Near(s);
    }
  }

  lemma NoEmpty(s: seq<Byte>)
    requires s != []
    ensures NoEmptyLabel(s) <==> 1 <= Run(s) && NoEmptyLabel(Rest(s))
  {
    var n, r := Run(s), Rest(s);
    assert forall i :: 0 <= i < |r| ==> r[i] == s[n + 1 + i];
    if 1 <= n && NoEmptyLabel(r) {
      forall i | 0 <= i < |s| - 1 && s[i] == DOT
        ensures s[i + 1] != DOT
      {
        if i > n { assert r[i - n - 1] == DOT; }
      }
    }
    if NoEmptyLabel(s) {
      forall i | 0 <= i < |r| - 1 && r[i] == DOT
        ensures r[i + 1] != DOT
      {
        assert s[n + 1 + i] == DOT;
      }
    }
  }

  lemma Near(s: seq<Byte>)
    requires s != []
    ensures DotsNear(s) <==> Run(s) <= 63 && DotsNear(Rest(s))
  {
    var n, r := Run(s), Rest(s);
    assert forall i :: 0 <= i < |r| ==> r[i] == s[n + 1 + i];
    if n <= 63 && DotsNear(r) {
      forall i: nat | i + 64 <= |s|
        ensures DotAmong(s, i)
      {
        if i <= n {
          assert s[n] == DOT;
        } else {
          assert DotAmong(r, i - n - 1);
          var k :| i - n - 1 <= k < i - n - 1 + 64 && r[k] == DOT;
          assert s[n + 1 + k] == DOT;
        }
      }
    }
    if DotsNear(s) {
      assert |s| >= 64 ==> DotAmong(s, 0);
      forall i: nat | i + 64 <= |r|
        ensures DotAmong(r, i)
      {
        assert DotAmong(s, n + 1 + i);
        var k :| n + 1 + i <= k < n + 1 + i + 64 && s[k] == DOT;
        assert r[k - n - 1] == DOT;
      }
    }
  }

  // ---------------------------------------------------------------- writing

  /** The length counter of dns_write_name is one byte wide: the scan of a label ends exactly when it finds a dot or
      the end within 256 bytes. */
  lemma ScanEndsIff(s: seq<Byte>)
    ensures (exists k: nat :: ScanStops(s, k % 256)) <==> Run(s) < 256
  {
    if Run(s) < 256 {
      assert ScanStops(s, Run(s) % 256);
    }
  }

  predicate ScanStops(s: seq<Byte>, len: nat) { len >= |s| || s[len] == DOT }

  /** The inner scan, with its one-byte counter. */
  method LabelLength(s: seq<Byte>, start: nat) returns (len: nat)
    requires start <= |s| && Run(s[start..]) < 256
    ensures len == Run(s[start..])
  {
    len := 0;
    ghost var n := Run(s[start..]);
    while start + len < |s| && s[start + len] != DOT
      invariant len <= n
      decreases n - len
    {
      assert s[start..][len] != DOT;
      len := (len + 1) % 256;
    }
  }

  /** Every label the writer comes to has fewer than 256 bytes. */
  predicate Scannable(s: seq<Byte>)
    decreases |s|
  {
    s == [] || (Run(s) < 256 && (1 <= Run(s) <= 63 ==> Scannable(Rest(s))))
  }

  method CopyLabel(out: array<Byte>, pos: nat, s: seq<Byte>, start: nat, len: nat)
    requires start + len <= |s| && pos + len <= out.Length
    modifies out
    ensures out[..] == old(out[..pos]) + s[start..start + len] + old(out[pos + len..])
  {
    var i := 0;
    while i < len
      invariant 0 <= i <= len
      invariant out[..pos] == old(out[..pos]) && out[pos + len..] == old(out[pos + len..])
      invariant out[pos..pos + i] == s[start..start + i]
    {
      out[pos + i] := s[start + i];
      assert out[pos..pos + i + 1] == out[pos..pos + i] + [s[start + i]];
      i := i + 1;
    }
    assert out[..] == out[..pos] + out[pos..pos + len] + out[pos + len..];
  }

  /** The buffer holds what is written and, behind it, what it held before. */
  ghost predicate Layout(now: seq<Byte>, base: seq<Byte>, written: seq<Byte>) {
    |written| <= |base| && now == written + base[|written|..]
  }

  method PutLabel(out: array<Byte>, pos: nat, s: seq<Byte>, start: nat, len: Byte, ghost base: seq<Byte>,
                  ghost written: seq<Byte>)
    requires start + len <= |s| && pos + 1 + len <= out.Length && pos == |written| && Layout(out[..], base, written)
    modifies out
    ensures Layout(out[..], base, written + ([len] + s[start..start + len]))
  {
    ghost var before := out[..];
    out[pos] := len;
    assert out[..pos + 1] == before[..pos] + [len];
    CopyLabel(out, pos + 1, s, start, len);
    Extend(before, written, base, [len] + s[start..start + len]);
  }

  method PutZero(out: array<Byte>, pos: nat, ghost base: seq<Byte>, ghost written: seq<Byte>)
    requires pos < out.Length && pos == |written| && Layout(out[..], base, written)
    modifies out
    ensures Layout(out[..], base, written + [0])
  {
    ghost var before := out[..];
    Extend(before, written, base, [0]);
    out[pos] := 0;
    assert out[..] == before[..pos] + [0] + before[pos + 1..];
  }

  /** The state of dns_write_name before each label: what is written, and what of the name is left. */
  ghost predicate Writing(name: seq<Byte>, at: nat, written: seq<Byte>) {
    && at <= |name| && Scannable(name[at..]) && |written| <= at + 1 && (at < |name| ==> |written| <= at)
    && (Encodable(name) <==> Encodable(name[at..]))
    && (Encodable(name) ==> written + Labels(name[at..]) == Labels(name))
  }

  lemma LabelsStep(s: seq<Byte>)
    requires s != [] && Encodable(s)
    ensures Labels(s) == [Run(s)] + s[..Run(s)] + Labels(Rest(s))
  {
  }

  lemma WritingStep(name: seq<Byte>, at: nat, written: seq<Byte>)
    requires Writing(name, at, written) && at < |name| && 1 <= Run(name[at..]) <= 63
    ensures var n := Run(name[at..]);
            Writing(name, if at + n < |name| then at + n + 1 else at + n, written + ([n] + name[at..at + n]))
  {
    hide Labels;
    hide Run;
    hide Rest;
    hide Encodable;
    hide Scannable;
    var s := name[at..];
    RestAt(name, at);
    NameStep(s);
    if Encodable(s) {
      LabelsStep(s);
      assert written + Labels(s) == written + ([Run(s)] + s[..Run(s)]) + Labels(Rest(s));
    }
  }

  lemma RestAt(name: seq<Byte>, at: nat)
    requires at < |name|
    ensures var n := Run(name[at..]);
            && at + n <= |name| && name[at..][..n] == name[at..at + n]
            && name[if at + n < |name| then at + n + 1 else at + n..] == Rest(name[at..])
  {
    hide Run;
  }

  lemma NameStep(s: seq<Byte>)
    requires s != [] && 1 <= Run(s) <= 63 && Scannable(s)
    ensures (Encodable(s) <==> Encodable(Rest(s))) && Scannable(Rest(s))
  {
  }

  /** Writing `mid` behind what is written. */
  lemma Extend(before: seq<Byte>, written: seq<Byte>, base: seq<Byte>, mid: seq<Byte>)
    requires |written| + |mid| <= |base| && before == written + base[|written|..]
    ensures before[..|written|] + mid + before[|written| + |mid|..] == written + mid + base[|written| + |mid|..]
  {
    assert before[..|written|] == written;
    assert before[|written| + |mid|..] == base[|written| + |mid|..];
  }

  lemma LayoutStart(base: seq<Byte>)
    ensures Layout(base, base, [])
  {
  }

  lemma SameTail(now: seq<Byte>, written: seq<Byte>, base: seq<Byte>, k: nat)
    requires |written| <= k <= |base| && Layout(now, base, written)
    ensures |now| == |base| && now[k..] == base[k..] && now == written + base[|written|..]
  {
  }

  /** dns_write_name: the labels and a zero byte, or 0 for a name with a bad label. */
  method WriteName(out: array<Byte>, name: seq<Byte>) returns (r: nat)
    requires Scannable(name) && |name| + 2 <= out.Length && |name| + 2 < 0x10000
    modifies out
    ensures r == 0 <==> !Encodable(name)
    ensures r != 0 ==> r == |Labels(name)| + 1 && out[..] == Labels(name) + [0] + old(out[..])[r..]
    ensures out[..][|name| + 2..] == old(out[..])[|name| + 2..]
  {
    hide Writing;
    hide Layout;
    hide Labels;
    hide Run;
    hide Rest;
    hide Encodable;
    hide Scannable;
    var pos, at := 0, 0;
    ghost var written: seq<Byte> := [];
    ghost var base := out[..];
    LayoutStart(base);
    WritingStart(name);
    while at < |name|
      invariant 0 <= at <= |name| && Writing(name, at, written)
      invariant pos == |written| <= at + 1 && (at < |name| ==> pos <= at)
      invariant Layout(out[..], base, written)
    {
      WritingFacts(name, at, written);
      var len := LabelLength(name, at);
      if len == 0 || len > 63 {
        SameTail(out[..], written, base, |name| + 2);
        return 0;
      }
      WritingStep(name, at, written);
      PutLabel(out, pos, name, at, len, base, written);
      written := written + ([len] + name[at..at + len]);
      pos := pos + 1 + len;
      at := at + len;
      if at < |name| && name[at] == DOT { at := at + 1; }
      WritingSize(name, at, written);
    }
    WritingEnd(name, at, written);
    PutZero(out, pos, base, written);
    SameTail(out[..], written + [0], base, |name| + 2);
    pos := pos + 1;
    return pos;
  }

  lemma WritingStart(name: seq<Byte>)
    requires Scannable(name)
    ensures Writing(name, 0, [])
  {
    assert name[0..] == name;
    if Encodable(name) { assert [] + Labels(name[0..]) == Labels(name); }
  }

  lemma WritingSize(name: seq<Byte>, at: nat, written: seq<Byte>)
    requires Writing(name, at, written)
    ensures at <= |name| && |written| <= at + 1 && (at < |name| ==> |written| <= at)
  {
  }

  lemma WritingFacts(name: seq<Byte>, at: nat, written: seq<Byte>)
    requires Writing(name, at, written) && at < |name|
    ensures Run(name[at..]) < 256 && (!(1 <= Run(name[at..]) <= 63) ==> !Encodable(name))
    ensures at + Run(name[at..]) < |name| ==> name[at + Run(name[at..])] == DOT
  {
  }

  lemma WritingEnd(name: seq<Byte>, at: nat, written: seq<Byte>)
    requires Writing(name, at, written) && at == |name|
    ensures Encodable(name) && written == Labels(name)
  {
  }

  // ---------------------------------------------------------------- reading

  /** The first two bits set mark a compression pointer. */
  predicate IsPointer(b: Byte) { b >= 0xC0 }

  function PointerAt(msg: seq<Byte>, pos: nat): nat
    requires pos + 1 < |msg| && IsPointer(msg[pos])
  {
    Join(msg[pos] - 0xC0, msg[pos + 1])
  }

  /** How many bytes the name at pos takes up there: labels up to its end, or up to and with the first pointer. */
  function Consumed(msg: seq<Byte>, pos: nat): nat
    decreases |msg| - pos
  {
    if pos >= |msg| then 0
    else if msg[pos] == 0 then 1
    else if IsPointer(msg[pos]) then (if pos + 1 >= |msg| then 0 else 2)
    else if pos + 1 + msg[pos] > |msg| then 0
    else 1 + msg[pos] + Consumed(msg, pos + 1 + msg[pos])
  }

  /** The text read from pos after `jumps` pointers, behind the labels already read. */
  function ReadText(msg: seq<Byte>, pos: nat, jumps: nat, acc: seq<Byte>): seq<Byte>
    requires jumps <= MAX_JUMPS
    decreases MAX_JUMPS - jumps, |msg| - pos
  {
    if pos >= |msg| || msg[pos] == 0 then acc
    else if IsPointer(msg[pos]) then
      if pos + 1 >= |msg| || jumps == MAX_JUMPS then acc
      else ReadText(msg, PointerAt(msg, pos), jumps + 1, acc)
    else if pos + 1 + msg[pos] > |msg| then acc
    else ReadText(msg, pos + 1 + msg[pos], jumps, Joined(acc, msg[pos + 1..pos + 1 + msg[pos]]))
  }

  /** A name that starts inside the message ends inside it. */
  lemma {:induction false} ConsumedInside(msg: seq<Byte>, pos: nat)
    ensures pos <= |msg| ==> pos + Consumed(msg, pos) <= |msg|
    ensures pos > |msg| ==> Consumed(msg, pos) == 0
    decreases |msg| - pos
  {
    if pos < |msg| && msg[pos] != 0 && !IsPointer(msg[pos]) && pos + 1 + msg[pos] <= |msg| {
      ConsumedInside(msg, pos + 1 + msg[pos]);
    }
  }

  function Cap(size: nat): nat { if size == 0 then 0 else size - 1 }

  /** The text as far as it fits in front of a zero byte. */
  function Fit(t: seq<Byte>, size: nat): (r: seq<Byte>)
    ensures |r| <= |t| && |r| <= size && (size > 0 ==> |r| < size) && (|t| < size ==> r == t)
  {
    if |t| <= Cap(size) then t else t[..Cap(size)]
  }

  lemma FitAppend(t: seq<Byte>, u: seq<Byte>, size: nat)
    ensures |t| >= Cap(size) ==> Fit(t + u, size) == Fit(t, size)
    ensures |t + u| <= Cap(size) ==> Fit(t + u, size) == t + u
  {
    if |t| >= Cap(size) { assert (t + u)[..Cap(size)] == t[..Cap(size)]; }
  }

  /** Append bytes while there is room for them and a zero byte. */
  method PutText(out: array<Byte>, outpos: nat, bytes: seq<Byte>, ghost text: seq<Byte>) returns (r: nat)
    requires outpos <= out.Length && out[..outpos] == Fit(text, out.Length)
    modifies out
    ensures r <= out.Length && out[..r] == Fit(text + bytes, out.Length)
    ensures outpos <= r && out[r..] == old(out[..])[r..]
  {
    hide Fit;
    r := outpos;
    var i := 0;
    ghost var before := out[..];
    assert text + bytes[..0] == text;
    while i < |bytes| && r + 1 < out.Length
      invariant 0 <= i <= |bytes| && outpos <= r <= out.Length
      invariant out[..r] == Fit(text + bytes[..i], out.Length)
      invariant out[r..] == before[r..]
    {
      FitStep(text, bytes, i, out.Length, r);
      ghost var tail := out[r..];
      out[r] := bytes[i];
      assert out[r + 1..] == tail[1..];
      assert tail[1..] == before[r + 1..];
      r := r + 1;
      i := i + 1;
    }
    if i < |bytes| {
      FitTail(text, bytes, i, out.Length, r);
    } else {
      assert bytes[..i] == bytes;
    }
  }

  lemma FitStep(text: seq<Byte>, bytes: seq<Byte>, i: nat, size: nat, r: nat)
    requires i < |bytes| && |Fit(text + bytes[..i], size)| == r && r + 1 < size
    ensures Fit(text + bytes[..i + 1], size) == Fit(text + bytes[..i], size) + [bytes[i]]
  {
    assert text + bytes[..i + 1] == text + bytes[..i] + [bytes[i]];
  }

  lemma FitTail(text: seq<Byte>, bytes: seq<Byte>, i: nat, size: nat, r: nat)
    requires i <= |bytes| && |Fit(text + bytes[..i], size)| == r && r + 1 >= size && r <= size
    ensures Fit(text + bytes, size) == Fit(text + bytes[..i], size)
  {
    assert text + bytes == text + bytes[..i] + bytes[i..];
    FitAppend(text + bytes[..i], bytes[i..], size);
  }

  /** The loop of dns_read_name: what is read so far, and that the rest leads to the whole. */
  ghost predicate Reading(msg: seq<Byte>, offset: nat, pos: nat, consumed: nat, jumped: bool, jumps: nat,
                          acc: seq<Byte>) {
    && jumps <= MAX_JUMPS
    && ReadText(msg, pos, jumps, acc) == ReadText(msg, offset, 0, [])
    && Consumed(msg, offset) == (if jumped then consumed else consumed + Consumed(msg, pos))
    && (!jumped ==> pos == offset + consumed)
    && (pos > |msg| ==> jumped || pos == offset)
  }

  lemma ReadingEnds(msg: seq<Byte>, offset: nat, pos: nat, consumed: nat, jumped: bool, jumps: nat, acc: seq<Byte>)
    requires Reading(msg, offset, pos, consumed, jumped, jumps, acc)
    ensures pos >= |msg| ==> Consumed(msg, offset) == consumed && acc == ReadText(msg, offset, 0, [])
    ensures pos < |msg| && msg[pos] == 0 ==>
      Consumed(msg, offset) == (if jumped then consumed else consumed + 1) && acc == ReadText(msg, offset, 0, [])
    ensures pos < |msg| && msg[pos] != 0 && IsPointer(msg[pos]) && pos + 1 >= |msg| ==>
      Consumed(msg, offset) == consumed && acc == ReadText(msg, offset, 0, [])
    ensures pos + 1 < |msg| && msg[pos] != 0 && IsPointer(msg[pos]) && jumps == MAX_JUMPS ==>
      Consumed(msg, offset) == (if jumped then consumed else consumed + 2) && acc == ReadText(msg, offset, 0, [])
    ensures pos < |msg| && msg[pos] != 0 && !IsPointer(msg[pos]) && pos + 1 + msg[pos] > |msg| ==>
      Consumed(msg, offset) == consumed && acc == ReadText(msg, offset, 0, [])
  {
  }

  lemma ReadingJump(msg: seq<Byte>, offset: nat, pos: nat, consumed: nat, jumped: bool, jumps: nat, acc: seq<Byte>)
    requires Reading(msg, offset, pos, consumed, jumped, jumps, acc)
    requires pos + 1 < |msg| && IsPointer(msg[pos]) && jumps < MAX_JUMPS
    ensures Reading(msg, offset, PointerAt(msg, pos), if jumped then consumed else consumed + 2, true, jumps + 1, acc)
  {
  }

  lemma ReadingLabel(msg: seq<Byte>, offset: nat, pos: nat, consumed: nat, jumped: bool, jumps: nat, acc: seq<Byte>)
    requires Reading(msg, offset, pos, consumed, jumped, jumps, acc)
    requires pos < |msg| && msg[pos] != 0 && !IsPointer(msg[pos]) && pos + 1 + msg[pos] <= |msg|
    ensures Reading(msg, offset, pos + 1 + msg[pos],
                    if jumped then consumed else consumed + 1 + msg[pos], jumped, jumps,
                    Joined(acc, msg[pos + 1..pos + 1 + msg[pos]]))
  {
  }

  /** dns_read_name, for any message bytes, any offset and any buffer. */
  method ReadName(msg: seq<Byte>, offset: nat, out: array<Byte>) returns (consumed: nat, ghost len: nat)
    requires |msg| < 0x10000 && offset < 0x10000 && out.Length < 0x10000
    modifies out
    ensures consumed == Consumed(msg, offset) && (offset <= |msg| ==> offset + consumed <= |msg|)
    ensures len <= out.Length && out[..len] == Fit(ReadText(msg, offset, 0, []), out.Length)
    ensures len < out.Length ==> out[len] == 0
    ensures out.Length > 0 ==> len < out.Length
    ensures forall i :: len < i < out.Length ==> out[i] == old(out[i])
  {
    hide Reading;
    hide ReadText;
    hide Consumed;
    hide Joined;
    hide Fit;
    ConsumedInside(msg, offset);
    var pos: nat, jumped, jumps, outpos := offset, false, 0, 0;
    consumed := 0;
    ghost var acc: seq<Byte> := [];
    ReadingStart(msg, offset, out.Length);
    ReadingEnds(msg, offset, pos, consumed, jumped, jumps, acc);
    while pos < |msg|
      invariant Reading(msg, offset, pos, consumed, jumped, jumps, acc) && jumps <= MAX_JUMPS
      invariant outpos <= out.Length && out[..outpos] == Fit(acc, out.Length)
      invariant out[outpos..] == old(out[..])[outpos..]
      invariant pos >= |msg| ==> Consumed(msg, offset) == consumed && acc == ReadText(msg, offset, 0, [])
      decreases MAX_JUMPS - jumps, |msg| - pos
    {
      ReadingEnds(msg, offset, pos, consumed, jumped, jumps, acc);
      var n := msg[pos];
      if n == 0 {
        if !jumped { consumed := consumed + 1; }
        break;
      }
      if IsPointer(n) {
        if pos + 1 >= |msg| { break; }
        var ptr: nat := Join(n - 0xC0, msg[pos + 1]);
        if jumps < MAX_JUMPS { ReadingJump(msg, offset, pos, consumed, jumped, jumps, acc); }
        if !jumped { consumed := consumed + 2; }
        jumps := jumps + 1;
        if jumps > MAX_JUMPS { break; }
        pos := ptr;
        jumped := true;
        ReadingEnds(msg, offset, pos, consumed, jumped, jumps, acc);
        continue;
      }
      if pos + 1 + n > |msg| { break; }
      ReadingLabel(msg, offset, pos, consumed, jumped, jumps, acc);
      if !jumped { consumed := consumed + 1 + n; }
      outpos, acc := AppendLabel(out, outpos, msg[pos + 1..pos + 1 + n], acc);
      pos := pos + 1 + n;
      ReadingEnds(msg, offset, pos, consumed, jumped, jumps, acc);
    }
    len := outpos;
    FitSize(acc, out.Length);
    if outpos < out.Length { out[outpos] := 0; }
  }

  lemma FitSize(t: seq<Byte>, size: nat)
    ensures |Fit(t, size)| <= size && (size > 0 ==> |Fit(t, size)| < size)
  {
  }

  lemma ReadingStart(msg: seq<Byte>, offset: nat, size: nat)
    ensures Reading(msg, offset, offset, 0, false, 0, []) && Fit([], size) == []
  {
  }

  lemma AppendDot(acc: seq<Byte>, outpos: nat, size: nat)
    requires |Fit(acc, size)| == outpos
    ensures acc == [] ==> outpos == 0
    ensures outpos != 0 && outpos + 1 < size ==> acc != [] && Fit(acc + [DOT], size) == Fit(acc, size) + [DOT]
    ensures acc != [] && !(outpos != 0 && outpos + 1 < size) ==> Fit(acc + [DOT], size) == Fit(acc, size)
  {
    FitAppend(acc, [DOT], size);
  }

  /** A dot if this is not the first label, and the label's bytes, as far as they fit. */
  method AppendLabel(out: array<Byte>, outpos: nat, bytes: seq<Byte>, ghost acc: seq<Byte>)
    returns (r: nat, ghost text: seq<Byte>)
    requires outpos <= out.Length && out[..outpos] == Fit(acc, out.Length) && bytes != []
    modifies out
    ensures text == Joined(acc, bytes)
    ensures r <= out.Length && out[..r] == Fit(text, out.Length)
    ensures outpos <= r && out[r..] == old(out[..])[r..]
  {
    text := Joined(acc, bytes);
    r := outpos;
    if outpos != 0 && outpos + 1 < out.Length {
      out[outpos] := DOT;
      r := outpos + 1;
    }
    AppendDot(acc, outpos, out.Length);
    ghost var dotted := if acc == [] then [] else acc + [DOT];
    assert text == dotted + bytes;
    assert out[..r] == Fit(dotted, out.Length);
    r := PutText(out, r, bytes, dotted);
  }

  // ---------------------------------------------------------------- writing and reading back

  predicate Holds(msg: seq<Byte>, p: nat, w: seq<Byte>) { p + |w| <= |msg| && msg[p..p + |w|] == w }

  lemma HoldsParts(msg: seq<Byte>, p: nat, a: seq<Byte>, b: seq<Byte>)
    requires Holds(msg, p, a + b)
    ensures Holds(msg, p, a) && Holds(msg, p + |a|, b)
  {
    assert msg[p..p + |a + b|][..|a|] == a;
    assert msg[p..p + |a + b|][|a|..] == b;
  }

  /** A whole name behind the labels already read. */
  function Extended(acc: seq<Byte>, s: seq<Byte>): seq<Byte> {
    if s == [] then acc else Joined(acc, Stripped(s))
  }

  /** Reading over the labels of a name adds the name, without its last dot, to the text. */
  lemma {:induction false} ReadLabels(msg: seq<Byte>, p: nat, s: seq<Byte>, jumps: nat, acc: seq<Byte>)
    requires Encodable(s) && Holds(msg, p, Labels(s)) && jumps <= MAX_JUMPS
    ensures ReadText(msg, p, jumps, acc) == ReadText(msg, p + |Labels(s)|, jumps, Extended(acc, s))
    ensures Consumed(msg, p) == |Labels(s)| + Consumed(msg, p + |Labels(s)|)
    decreases |s|
  {
    hide ReadText;
    hide Consumed;
    hide Labels;
    hide Run;
    hide Rest;
    hide Encodable;
    LabelsEmpty();
    if s != [] {
      var n, r := Run(s), Rest(s);
      LabelsStep(s);
      EncodableParts(s);
      HoldsParts(msg, p, [n] + s[..n], Labels(r));
      FirstByte(msg, p, n, s[..n]);
      ReadOne(msg, p, jumps, acc);
      ReadLabels(msg, p + 1 + n, r, jumps, Joined(acc, s[..n]));
      ExtendedStep(acc, s);
    }
  }

  lemma LabelsEmpty()
    ensures Encodable([]) && Labels([]) == []
  {
  }

  lemma EncodableParts(s: seq<Byte>)
    requires s != [] && Encodable(s)
    ensures 1 <= Run(s) <= 63 && Encodable(Rest(s))
  {
  }

  lemma FirstByte(msg: seq<Byte>, p: nat, n: Byte, part: seq<Byte>)
    requires Holds(msg, p, [n] + part) && |part| == n
    ensures p + 1 + n <= |msg| && msg[p] == n && msg[p + 1..p + 1 + n] == part
  {
    var w := [n] + part;
    assert msg[p..p + |w|][0] == n;
    assert msg[p..p + |w|][1..] == part;
  }

  lemma ReadOne(msg: seq<Byte>, p: nat, jumps: nat, acc: seq<Byte>)
    requires jumps <= MAX_JUMPS && p < |msg| && 1 <= msg[p] <= 63 && p + 1 + msg[p] <= |msg|
    ensures ReadText(msg, p, jumps, acc) ==
      ReadText(msg, p + 1 + msg[p], jumps, Joined(acc, msg[p + 1..p + 1 + msg[p]]))
    ensures Consumed(msg, p) == 1 + msg[p] + Consumed(msg, p + 1 + msg[p])
  {
  }

  lemma ExtendedStep(acc: seq<Byte>, s: seq<Byte>)
    requires s != [] && 1 <= Run(s)
    ensures Extended(Joined(acc, s[..Run(s)]), Rest(s)) == Extended(acc, s)
  {
    hide Run;
    var n, r := Run(s), Rest(s);
    if n == |s| {
      assert s[..n] == s;
    } else if r == [] {
      assert Stripped(s) == s[..n];
    } else {
      assert s == s[..n] + [DOT] + r;
      assert Stripped(s) == s[..n] + [DOT] + Stripped(r);
    }
  }

  /** What dns_write_name wrote, anywhere in any message, reads back as the name (a last dot apart) and takes up the
      bytes that were written. */
  lemma RoundTrip(msg: seq<Byte>, p: nat, name: seq<Byte>, jumps: nat)
    requires Encodable(name) && Holds(msg, p, Labels(name) + [0]) && jumps <= MAX_JUMPS
    ensures Consumed(msg, p) == |Labels(name)| + 1
    ensures ReadText(msg, p, jumps, []) == Stripped(name)
    ensures ReadText(msg, p, jumps, []) == name <==> name == [] || name[|name| - 1] != DOT
    ensures forall size: nat :: size > |name| ==> Fit(ReadText(msg, p, jumps, []), size) == Stripped(name)
  {
    hide Labels;
    hide Encodable;
    hide Holds;
    hide ReadText;
    hide Consumed;
    hide Fit;
    HoldsParts(msg, p, Labels(name), [0]);
    ReadLabels(msg, p, name, jumps, []);
    EndOfName(msg, p + |Labels(name)|, jumps, Stripped(name));
    FitName(name);
  }

  lemma FitName(name: seq<Byte>)
    ensures forall size: nat :: size > |name| ==> Fit(Stripped(name), size) == Stripped(name)
  {
  }

  function PointerBytes(q: nat): (w: seq<Byte>)
    requires q < 0x4000
    ensures |w| == 2
  {
    [0xC0 + q / 256, q % 256]
  }

  /** A name whose first labels stand at p and end in a pointer to the rest at q. */
  lemma CompressedRoundTrip(msg: seq<Byte>, p: nat, a: seq<Byte>, q: nat, b: seq<Byte>, jumps: nat)
    requires Encodable(a) && Encodable(b) && a != [] && b != [] && a[|a| - 1] != DOT && b[|b| - 1] != DOT
    requires q < 0x4000 && jumps < MAX_JUMPS
    requires Holds(msg, p, Labels(a) + PointerBytes(q)) && Holds(msg, q, Labels(b) + [0])
    ensures ReadText(msg, p, jumps, []) == a + [DOT] + b
    ensures Consumed(msg, p) == |Labels(a)| + 2
  {
    hide Labels;
    hide Encodable;
    hide Holds;
    hide ReadText;
    hide Consumed;
    hide PointerBytes;
    HoldsParts(msg, p, Labels(a), PointerBytes(q));
    ReadLabels(msg, p, a, jumps, []);
    var e := p + |Labels(a)|;
    FollowPointer(msg, e, q, jumps, a);
    HoldsParts(msg, q, Labels(b), [0]);
    ReadLabels(msg, q, b, jumps + 1, a);
    EndOfName(msg, q + |Labels(b)|, jumps + 1, a + [DOT] + b);
  }

  /** The first m parts of a name, with dots between them. */
  function Dotted(parts: seq<seq<Byte>>, m: nat): seq<Byte>
    requires m <= |parts|
  {
    if m == 0 then [] else Joined(Dotted(parts, m - 1), parts[m - 1])
  }

  /** A name spread over the message: part i stands at places[i] and ends in a pointer to the next, the last in 0. */
  predicate Chain(msg: seq<Byte>, parts: seq<seq<Byte>>, places: seq<nat>) {
    && |parts| == |places| > 0
    && (forall i :: 0 <= i < |parts| ==> Encodable(parts[i]) && parts[i] != [] && parts[i][|parts[i]| - 1] != DOT)
    && (forall i :: 0 < i < |places| ==> places[i] < 0x4000)
    && (forall i :: 0 <= i < |parts| ==> Holds(msg, places[i], Labels(parts[i]) + LinkBytes(places, i)))
  }

  function LinkBytes(places: seq<nat>, i: nat): seq<Byte>
    requires i < |places| && forall j :: 0 < j < |places| ==> places[j] < 0x4000
  {
    if i + 1 < |places| then PointerBytes(places[i + 1]) else [0]
  }

  /** A name spread over up to 16 pointers reads back whole; of a longer chain exactly the first 17 parts are read. */
  lemma ChainRoundTrip(msg: seq<Byte>, parts: seq<seq<Byte>>, places: seq<nat>)
    requires Chain(msg, parts, places)
    ensures ReadText(msg, places[0], 0, []) == Dotted(parts, if |parts| <= 17 then |parts| else 17)
    ensures Consumed(msg, places[0]) == |Labels(parts[0])| + if |parts| == 1 then 1 else 2
  {
    hide ReadText;
    hide Consumed;
    assert |parts| == |places| > 0;
    hide Chain;
    ChainFrom(msg, parts, places, 0);
    ChainPart(msg, parts, places, 0, 0, []);
  }

  lemma {:induction false} ChainFrom(msg: seq<Byte>, parts: seq<seq<Byte>>, places: seq<nat>, i: nat)
    requires Chain(msg, parts, places) && i < |parts| && i <= 16
    ensures ReadText(msg, places[i], i, Dotted(parts, i)) == Dotted(parts, if |parts| <= 17 then |parts| else 17)
    decreases |parts| - i
  {
    hide ReadText;
    hide Chain;
    hide Consumed;
    ChainPart(msg, parts, places, i, i, Dotted(parts, i));
    if i + 1 < |parts| && i < 16 {
      ChainFrom(msg, parts, places, i + 1);
    }
  }

  /** One part of the chain: its labels, and then the next part, the end, or a pointer too many. */
  lemma ChainPart(msg: seq<Byte>, parts: seq<seq<Byte>>, places: seq<nat>, i: nat, jumps: nat, acc: seq<Byte>)
    requires Chain(msg, parts, places) && i < |parts| && jumps <= 16
    ensures Encodable(parts[i])
    ensures ReadText(msg, places[i], jumps, acc) ==
      if i + 1 < |parts| && jumps < 16 then ReadText(msg, places[i + 1], jumps + 1, Joined(acc, parts[i]))
      else Joined(acc, parts[i])
    ensures Consumed(msg, places[i]) == |Labels(parts[i])| + if i + 1 == |parts| then 1 else 2
  {
    hide Labels;
    hide Encodable;
    hide Holds;
    hide ReadText;
    hide Consumed;
    hide PointerBytes;
    var s, p := parts[i], places[i];
    HoldsParts(msg, p, Labels(s), LinkBytes(places, i));
    ReadLabels(msg, p, s, jumps, acc);
    var e := p + |Labels(s)|;
    if i + 1 == |parts| {
      EndOfName(msg, e, jumps, Joined(acc, s));
    } else if jumps < 16 {
      FollowPointer(msg, e, places[i + 1], jumps, Joined(acc, s));
    } else {
      PointerTooMany(msg, e, places[i + 1], jumps, Joined(acc, s));
    }
  }

  lemma PointerTooMany(msg: seq<Byte>, e: nat, q: nat, jumps: nat, acc: seq<Byte>)
    requires q < 0x4000 && jumps == 16 && Holds(msg, e, PointerBytes(q))
    ensures ReadText(msg, e, jumps, acc) == acc && Consumed(msg, e) == 2
  {
    var w := PointerBytes(q);
    assert msg[e..e + 2] == w && msg[e] == w[0] && msg[e + 1] == w[1];
  }

  lemma FollowPointer(msg: seq<Byte>, e: nat, q: nat, jumps: nat, acc: seq<Byte>)
    requires q < 0x4000 && jumps < MAX_JUMPS && Holds(msg, e, PointerBytes(q))
    ensures ReadText(msg, e, jumps, acc) == ReadText(msg, q, jumps + 1, acc) && Consumed(msg, e) == 2
  {
    var w := PointerBytes(q);
    assert msg[e..e + 2] == w && msg[e] == w[0] && msg[e + 1] == w[1];
    assert PointerAt(msg, e) == q;
  }

  lemma EndOfName(msg: seq<Byte>, e: nat, jumps: nat, acc: seq<Byte>)
    requires Holds(msg, e, [0]) && jumps <= MAX_JUMPS
    ensures ReadText(msg, e, jumps, acc) == acc && Consumed(msg, e) == 1
  {
    assert msg[e..e + 1][0] == 0;
  }

  /** Two names with the same labels are the same up to a last dot. */
  lemma LabelsInjective(a: seq<Byte>, b: seq<Byte>)
    requires Encodable(a) && Encodable(b) && Labels(a) == Labels(b)
    ensures Stripped(a) == Stripped(b)
  {
    var msg := Labels(a) + [0];
    assert msg[0..0 + |msg|] == msg;
    RoundTrip(msg, 0, a, 0);
    RoundTrip(msg, 0, b, 0);
  }
}
