/**
  POSIX ACLs on disk (acl.c, acl.h), in 16-bit little-endian words: a header of
  two words, then entries of two words, or of four where the entry names a user
  or group.  Section 23 of the withdrawn POSIX P1003.1e draft 17 says which
  ACLs are valid.
*/
module Acl {

  newtype word = x: int | 0 <= x < 0x1_0000

  datatype Tag = UserObj | User | GroupObj | Group | Mask | Other | Unknown(code: word)

  /** e_id is 32 bits wide and kept only for named users and groups. */
  datatype Entry = Entry(tag: Tag, perm: word, hi: word, lo: word)

  datatype Result = Ok(acl: seq<Entry>) | NoAcl | EINVAL

  const VERSION: word := 1

  function Code(t: Tag): word {
    match t
    case UserObj => 0x01
    case User => 0x02
    case GroupObj => 0x04
    case Group => 0x08
    case Mask => 0x10
    case Other => 0x20
    case Unknown(c) => c
  }

  function TagOf(c: word): Tag {
    if c == 0x01 then UserObj else if c == 0x02 then User else if c == 0x04 then GroupObj
    else if c == 0x08 then Group else if c == 0x10 then Mask else if c == 0x20 then Other
    else Unknown(c)
  }

  lemma CodeTag(c: word)
    ensures Code(TagOf(c)) == c
  {
  }

  predicate Named(t: Tag) { t.User? || t.Group? }

  /** An entry as the kernel keeps it: a known tag, and an id only where there is one. */
  predicate Kept(e: Entry) { !e.tag.Unknown? && (Named(e.tag) || (e.hi == 0 && e.lo == 0)) }

  function Words(e: Entry): nat { if Named(e.tag) then 4 else 2 }

  // ------------------------------------------------------------------------- sizes

  /** f2fs_acl_size, in bytes. */
  function SizeOf(count: nat): nat { if count <= 4 then 4 + count * 4 else 4 + 16 + (count - 4) * 8 }

  /** f2fs_acl_count; -1 when no count has this size. */
  function CountOf(size: nat): int
    requires size >= 4
  {
    var body := size - 4;
    if body < 16 then if body % 4 != 0 then -1 else body / 4
    else if (body - 16) % 8 != 0 then -1 else (body - 16) / 8 + 4
  }

  lemma CountInverts(count: nat, size: nat)
    ensures CountOf(SizeOf(count)) == count
    ensures size >= 4 && CountOf(size) >= 0 ==> SizeOf(CountOf(size)) == size
  {
  }

  /** A size that has a count is an even number of words. */
  lemma CountEven(size: nat) returns (k: nat)
    requires size >= 4 && CountOf(size) >= 0
    ensures size == 4 * k && size / 2 == 2 * k
  {
    CountInverts(CountOf(size), size);
    var count := CountOf(size);
    hide CountOf;
    k := if count <= 4 then 1 + count else 5 + 2 * (count - 4);
  }

  // ---------------------------------------------------------------------- encoding

  function Encode1(e: Entry): seq<word> {
    [Code(e.tag), e.perm] + if Named(e.tag) then [e.lo, e.hi] else []
  }

  function EncodeAll(acl: seq<Entry>): seq<word> {
    if acl == [] then [] else EncodeAll(acl[..|acl| - 1]) + Encode1(acl[|acl| - 1])
  }

  /** f2fs_acl_to_disk: the words laid out, and the size reported for them. */
  method ToDisk(acl: seq<Entry>) returns (ok: bool, value: seq<word>, size: nat)
    ensures ok <==> forall i :: 0 <= i < |acl| ==> !acl[i].tag.Unknown?
    ensures ok ==> value == [VERSION, 0] + EncodeAll(acl) && size == SizeOf(|acl|)
  {
    value, size := [VERSION, 0], 0;
    for i := 0 to |acl|
      invariant forall j :: 0 <= j < i ==> !acl[j].tag.Unknown?
      invariant value == [VERSION, 0] + EncodeAll(acl[..i])
    {
      if acl[i].tag.Unknown? {
        return false, [], 0;
      }
      value := value + Encode1(acl[i]);
      assert acl[..i + 1][..i] == acl[..i];
    }
    assert acl[..|acl|] == acl;
    return true, value, SizeOf(|acl|);
  }

  // ---------------------------------------------------------------------- decoding

  function Decode1(v: seq<word>, at: nat): (e: Entry)
    requires at + 2 <= |v| && (Named(TagOf(v[at])) ==> at + 4 <= |v|)
  {
    var t := TagOf(v[at]);
    if Named(t) then Entry(t, v[at + 1], v[at + 3], v[at + 2]) else Entry(t, v[at + 1], 0, 0)
  }

  /** A word of the value, or of what lies behind it in memory. */
  function WordAt(v: seq<word>, beyond: nat -> word, at: nat): word { if at < |v| then v[at] else beyond(at) }

  /**
    f2fs_acl_from_disk on `size` bytes, `v` being the whole words among them.
    The bounds test lets it read an entry that starts at the end of the value,
    and the id of one that starts four bytes before; `over` says that it did.
  */
  method FromDisk(v: seq<word>, size: nat, beyond: nat -> word) returns (r: Result, over: bool)
    requires |v| == size / 2
    ensures r.Ok? <==> size == 2 * |v| && exists acl :: Encodes(v, acl) && acl != []
    ensures r.Ok? ==> Encodes(v, r.acl) && r.acl != []
    ensures r == NoAcl <==> size == 4 && v == [VERSION, 0]
    ensures over <==> Overruns(v, size)
    ensures over ==> r == EINVAL
  {
    hide EncodeAll, Overruns, Encodes, Read;
    over := false;
    if size < 4 {
      NoneToRead(v, size);
      return EINVAL, false;
    }
    if v[0] != VERSION || v[1] != 0 {
      NoneToRead(v, size);
      return EINVAL, false;
    }
    var count := CountOf(size);
    if count <= 0 {
      NoneToRead(v, size);
      return if count < 0 then EINVAL else NoAcl, false;
    }
    ghost var k := CountEven(size);
    hide CountOf, SizeOf;
    var acl: seq<Entry> := [];
    var at := 2;
    NothingRead(v);
    for i := 0 to count
      invariant |acl| == i && at >= 2
      invariant !over ==> Read(v, acl, at) && at <= |v|
      invariant over ==> at > |v| && Overruns(v, size)
    {
      if at > |v| {
        OverRefused(v, size);
        return EINVAL, over;
      }
      var t := TagOf(WordAt(v, beyond, at));
      ghost var before := acl;
      if at + 2 > |v| || (Named(t) && at + 4 > |v|) {
        RunsNow(v, size, acl, at);
        over := true;
      }
      if t.Unknown? {
        if over { OverRefused(v, size); } else { Refused(v, size, count, acl, at); }
        return EINVAL, over;
      }
      acl := acl + [Entry(t, WordAt(v, beyond, at + 1),
                          if Named(t) then WordAt(v, beyond, at + 3) else 0,
                          if Named(t) then WordAt(v, beyond, at + 2) else 0)];
      if !over { Extend(v, before, at); }
      at := at + if Named(t) then 4 else 2;
    }
    if over { OverRefused(v, size); } else { Refused(v, size, count, acl, at); }
    if at != |v| {
      return EINVAL, over;
    }
    return Ok(acl), false;
  }

  /** The words up to `at` encode what has been read. */
  ghost predicate Read(v: seq<word>, acl: seq<Entry>, at: nat) {
    Good(acl) && 2 <= at <= |v| && v[..at] == [VERSION, 0] + EncodeAll(acl)
  }

  lemma NothingRead(v: seq<word>)
    requires |v| >= 2 && v[0] == VERSION && v[1] == 0
    ensures Read(v, [], 2)
  {
    assert v[..2] == [VERSION, 0] + EncodeAll([]);
  }

  /** After the entries `acl` the reader has entries to come but no room for the next. */
  ghost predicate Runs(v: seq<word>, size: nat, acl: seq<Entry>) {
    var at := 2 + |EncodeAll(acl)|;
    && size >= 4 && |acl| < CountOf(size) && Read(v, acl, at)
    && (at == |v| || (at + 2 == |v| && Named(TagOf(v[at]))))
  }

  /** Values that no entry is read from. */
  lemma NoneToRead(v: seq<word>, size: nat)
    requires |v| == size / 2 && (size < 4 || v[0] != VERSION || v[1] != 0 || CountOf(size) <= 0)
    ensures !Overruns(v, size) && forall acl :: Encodes(v, acl) && size == 2 * |v| ==> acl == []
    ensures v == [VERSION, 0] && size == 4 <==> size >= 4 && v[0] == VERSION && v[1] == 0 && CountOf(size) == 0
  {
    hide EncodeAll;
    forall acl | Encodes(v, acl) && size == 2 * |v|
      ensures acl == []
    {
      CountInverts(|acl|, size);
    }
    forall acl | Runs(v, size, acl)
      ensures false
    {
    }
    if size >= 4 && CountOf(size) >= 0 { CountInverts(CountOf(size), size); }
  }

  lemma RunsNow(v: seq<word>, size: nat, acl: seq<Entry>, at: nat)
    requires |v| == size / 2 && size >= 4 && |acl| < CountOf(size) && Read(v, acl, at)
    requires at + 2 > |v| || (at + 4 > |v| && Named(TagOf(v[at])))
    ensures Overruns(v, size)
  {
    EncodedLength(acl);
    var k := CountEven(size);
    hide EncodeAll, CountOf, TagOf, Longs, Good;
    assert |v[..at]| == at;
    assert at == 2 + |EncodeAll(acl)| == 2 * (1 + |acl| + Longs(acl));
    assert Runs(v, size, acl);
  }

  /** The values on which the reader leaves its buffer. */
  ghost predicate Overruns(v: seq<word>, size: nat) { exists acl :: Runs(v, size, acl) }

  ghost predicate Good(acl: seq<Entry>) { forall i :: 0 <= i < |acl| ==> Kept(acl[i]) }

  /** The words are the encoding of `acl`, and as many as f2fs_acl_size says. */
  ghost predicate Encodes(v: seq<word>, acl: seq<Entry>) {
    Good(acl) && v == [VERSION, 0] + EncodeAll(acl) && 2 * |v| == SizeOf(|acl|)
  }

  lemma Extend(v: seq<word>, acl: seq<Entry>, at: nat)
    requires 2 <= at && at + 2 <= |v| && (Named(TagOf(v[at])) ==> at + 4 <= |v|) && !TagOf(v[at]).Unknown?
    requires Read(v, acl, at)
    ensures var e := Decode1(v, at); Kept(e) && at + Words(e) <= |v| && Read(v, acl + [e], at + Words(e))
  {
    var e := Decode1(v, at);
    var next := acl + [e];
    assert next[..|acl|] == acl;
    CodeTag(v[at]);
    assert v[at..at + Words(e)] == Encode1(e);
    assert v[..at + Words(e)] == v[..at] + v[at..at + Words(e)];
  }

  lemma {:induction false} EncodePrefix(acl: seq<Entry>, i: nat)
    requires i <= |acl|
    ensures EncodeAll(acl[..i]) <= EncodeAll(acl)
  {
    if i < |acl| {
      var init := acl[..|acl| - 1];
      EncodePrefix(init, i);
      assert init[..i] == acl[..i];
    } else {
      assert acl[..i] == acl;
    }
  }

  lemma EncodeNext(acl: seq<Entry>, i: nat)
    requires i < |acl|
    ensures EncodeAll(acl[..i + 1]) == EncodeAll(acl[..i]) + Encode1(acl[i])
  {
    assert acl[..i + 1][..i] == acl[..i];
  }

  /** What entry `i` of an encoded ACL looks like in the words. */
  lemma EntryIn(v: seq<word>, acl: seq<Entry>, i: nat)
    requires Good(acl) && v == [VERSION, 0] + EncodeAll(acl) && i < |acl|
    ensures var at := 2 + |EncodeAll(acl[..i])|;
            && at + Words(acl[i]) <= |v| && TagOf(v[at]) == acl[i].tag && Decode1(v, at) == acl[i]
            && 2 + |EncodeAll(acl[..i + 1])| == at + Words(acl[i])
  {
    hide EncodeAll, Decode1, TagOf, Code, Encode1;
    EncodePrefix(acl, i + 1);
    EncodeNext(acl, i);
    Middle(v, [VERSION, 0], EncodeAll(acl), EncodeAll(acl[..i]), Encode1(acl[i]));
    DecodeEncoded(v, 2 + |EncodeAll(acl[..i])|, acl[i]);
  }

  /** Decoding undoes encoding. */
  lemma DecodeEncoded(v: seq<word>, at: nat, e: Entry)
    requires Kept(e) && at + |Encode1(e)| <= |v|
    requires forall j :: 0 <= j < |Encode1(e)| ==> v[at + j] == Encode1(e)[j]
    ensures |Encode1(e)| == Words(e) && TagOf(v[at]) == e.tag && Decode1(v, at) == e
  {
    assert v[at] == Encode1(e)[0] && v[at + 1] == Encode1(e)[1];
    if Named(e.tag) { assert v[at + 2] == Encode1(e)[2] && v[at + 3] == Encode1(e)[3]; }
  }

  lemma Middle(v: seq<word>, h: seq<word>, w: seq<word>, pre: seq<word>, mid: seq<word>)
    requires v == h + w && pre + mid <= w
    ensures |h| + |pre| + |mid| <= |v| && forall j :: 0 <= j < |mid| ==> v[|h| + |pre| + j] == mid[j]
  {
    var both := pre + mid;
    forall j | 0 <= j < |mid|
      ensures v[|h| + |pre| + j] == mid[j]
    {
      assert both[|pre| + j] == mid[j] && w[|pre| + j] == both[|pre| + j];
    }
  }

  /** Entries read so far are the first entries of any ACL that the words encode. */
  lemma {:induction false} Unique(v: seq<word>, read: seq<Entry>, acl: seq<Entry>)
    requires Good(read) && Good(acl) && v == [VERSION, 0] + EncodeAll(acl) && |read| <= |acl|
    requires [VERSION, 0] + EncodeAll(read) <= v
    ensures read == acl[..|read|]
  {
    hide EncodeAll, Decode1, TagOf, Code;
    if read != [] {
      var i := |read| - 1;
      var init := read[..i];
      EncodePrefix(read, i);
      Unique(v, init, acl);
      EntryIn(v, acl, i);
      var w := [VERSION, 0] + EncodeAll(read);
      EntryIn(w, read, i);
      SameEntry(v, w, 2 + |EncodeAll(init)|);
      assert read == init + [read[i]];
    }
  }

  lemma SameEntry(v: seq<word>, w: seq<word>, at: nat)
    requires w <= v && at + 2 <= |w| && (Named(TagOf(w[at])) ==> at + 4 <= |w|)
    ensures Decode1(w, at) == Decode1(v, at)
  {
  }

  lemma WholePrefix<T>(s: seq<T>, n: nat)
    ensures n == |s| ==> s[..n] == s
  {
  }

  /** Two readings of the same words: the shorter is the front of the longer. */
  lemma SameReading(v: seq<word>, a: seq<Entry>, at: nat, b: seq<Entry>, bt: nat)
    requires Read(v, a, at) && Read(v, b, bt) && |a| <= |b|
    ensures a == b[..|a|] && at <= bt && (|a| == |b| ==> a == b && at == bt)
    ensures |a| < |b| ==> at + Words(b[|a|]) <= bt && TagOf(v[at]) == b[|a|].tag
  {
    hide EncodeAll;
    var w := v[..bt];
    if at > bt {
      var u := v[..at];
      Unique(u, b[..|a|], a) by { Front(v, b, bt, |a|); }
      WholePrefix(a, |a|);
      EncodePrefix(b, |a|);
      assert false;
    }
    Unique(w, a, b);
    WholePrefix(b, |a|);
    if |a| < |b| {
      EntryIn(w, b, |a|);
      EncodePrefix(b, |a| + 1);
    }
  }

  /** The front of what has been read has been read. */
  lemma Front(v: seq<word>, b: seq<Entry>, bt: nat, n: nat)
    requires Read(v, b, bt) && n <= |b|
    ensures var at := 2 + |EncodeAll(b[..n])|; at <= bt && Read(v, b[..n], at)
  {
    hide EncodeAll;
    EncodePrefix(b, n);
    var at := 2 + |EncodeAll(b[..n])|;
    assert v[..at] == v[..bt][..at];
  }

  /** Values on which the reader leaves the buffer encode no ACL. */
  lemma OverRefused(v: seq<word>, size: nat)
    requires Overruns(v, size) && |v| == size / 2
    ensures !(size == 4 && v == [VERSION, 0])
    ensures forall acl :: size == 2 * |v| ==> !Encodes(v, acl)
  {
    hide EncodeAll;
    var read :| Runs(v, size, read);
    var at := 2 + |EncodeAll(read)|;
    forall acl | Encodes(v, acl) && size == 2 * |v|
      ensures false
    {
      CountInverts(|acl|, size);
      assert v[..|v|] == v;
      SameReading(v, read, at, acl, |v|);
    }
  }

  /** When the reader stops within its buffer, it has read all there is, or the words encode no ACL. */
  lemma Refused(v: seq<word>, size: nat, count: nat, read: seq<Entry>, at: nat)
    requires size == 2 * |v| && size >= 4 && CountOf(size) == count > 0 && |read| <= count && Read(v, read, at)
    requires |read| < count ==> at + 2 <= |v| && TagOf(v[at]).Unknown?
    ensures !Overruns(v, size)
    ensures |read| < count || at != |v| ==> forall acl :: !Encodes(v, acl)
    ensures |read| == count && at == |v| ==> Encodes(v, read)
    ensures !(v == [VERSION, 0])
  {
    hide EncodeAll;
    CountInverts(count, size);
    forall acl | Encodes(v, acl)
      ensures |read| == count && at == |v|
    {
      CountInverts(|acl|, size);
      assert v[..|v|] == v;
      SameReading(v, read, at, acl, |v|);
    }
    forall acl | Runs(v, size, acl)
      ensures false
    {
      var bt := 2 + |EncodeAll(acl)|;
      if |acl| <= |read| {
        SameReading(v, acl, bt, read, at);
      } else {
        SameReading(v, read, at, acl, bt);
      }
    }
    assert v[..|v|] == v;
  }

  /** So what is read back is what was written. */
  lemma EncodesOnce(v: seq<word>, a: seq<Entry>, b: seq<Entry>)
    requires Encodes(v, a) && Encodes(v, b)
    ensures a == b
  {
    CountInverts(|a|, 2 * |v|);
    CountInverts(|b|, 2 * |v|);
    WholePrefix(b, |a|);
    Unique(v, a, b);
  }

  // -------------------------------------------------------------------- round trip

  function Longs(acl: seq<Entry>): nat {
    if acl == [] then 0 else Longs(acl[..|acl| - 1]) + if Named(acl[|acl| - 1].tag) then 1 else 0
  }

  lemma {:induction false} EncodedLength(acl: seq<Entry>)
    ensures |EncodeAll(acl)| == 2 * |acl| + 2 * Longs(acl) && Longs(acl) <= |acl|
  {
    if acl != [] { EncodedLength(acl[..|acl| - 1]); }
  }

  /** The size formula allows four short entries, and long ones only after those. */
  predicate Fits(acl: seq<Entry>) {
    if |acl| <= 4 then Longs(acl) == 0 else |acl| - Longs(acl) == 4
  }

  /** `v` is what is stored of an ACL: as many words as its reported size, and after its own whatever there was. */
  ghost predicate Stored(v: seq<word>, acl: seq<Entry>) {
    var enc := [VERSION, 0] + EncodeAll(acl);
    2 * |v| == SizeOf(|acl|) && (v <= enc || enc <= v)
  }

  /**
    Writing an ACL and reading it back gives the same ACL if and only if it has
    four unnamed entries, or at most four entries none of which is named; and if
    it does not, what is stored reads as no ACL at all.
  */
  lemma RoundTripIff(v: seq<word>, acl: seq<Entry>)
    requires Good(acl) && Stored(v, acl)
    ensures Encodes(v, acl) <==> Fits(acl)
    ensures (exists other :: Encodes(v, other)) <==> Fits(acl)
  {
    EncodedLength(acl);
    hide EncodeAll;
    var enc := [VERSION, 0] + EncodeAll(acl);
    forall other | Encodes(v, other)
      ensures other == acl
    {
      CountInverts(|acl|, 2 * |v|);
      CountInverts(|other|, 2 * |v|);
      WholePrefix(other, |acl|);
      WholePrefix(acl, |acl|);
      if enc <= v { Unique(v, acl, other); } else { Unique(enc, other, acl); }
    }
  }

  /** Reading back leaves the buffer if and only if more entries are named than the size allows for. */
  lemma ReadBackOverruns(v: seq<word>, acl: seq<Entry>)
    requires Good(acl) && Stored(v, acl)
    ensures Overruns(v, 2 * |v|) <==> Longs(acl) > if |acl| <= 4 then 0 else |acl| - 4
  {
    EncodedLength(acl);
    hide EncodeAll;
    var enc := [VERSION, 0] + EncodeAll(acl);
    CountInverts(|acl|, 2 * |v|);
    if |enc| > |v| { TooLong(v, acl); } else { NotTooLong(v, acl); }
  }

  lemma TooLong(v: seq<word>, acl: seq<Entry>)
    requires Good(acl) && Stored(v, acl) && |v| < 2 + |EncodeAll(acl)|
    ensures Overruns(v, 2 * |v|)
  {
    hide EncodeAll, TagOf, Decode1;
    CountInverts(|acl|, 2 * |v|);
    var enc := [VERSION, 0] + EncodeAll(acl);
    var i := Crossing(acl, |v|);
    WholePrefix(enc, |enc|);
    Front(enc, acl, |enc|, i);
    EntryIn(enc, acl, i);
    var at := 2 + |EncodeAll(acl[..i])|;
    assert v[..at] == enc[..at];
    RunsNow(v, 2 * |v|, acl[..i], at);
  }

  lemma NotTooLong(v: seq<word>, acl: seq<Entry>)
    requires Good(acl) && Stored(v, acl) && |v| >= 2 + |EncodeAll(acl)|
    ensures !Overruns(v, 2 * |v|)
  {
    hide EncodeAll, TagOf;
    CountInverts(|acl|, 2 * |v|);
    var enc := [VERSION, 0] + EncodeAll(acl);
    assert v[..|enc|] == enc;
    forall read | Runs(v, 2 * |v|, read)
      ensures false
    {
      SameReading(v, read, 2 + |EncodeAll(read)|, acl, |enc|);
    }
  }

  /** The entry that reaches past word `n`. */
  lemma {:induction false} Crossing(acl: seq<Entry>, n: nat) returns (i: nat)
    requires 2 <= n < 2 + |EncodeAll(acl)|
    ensures i < |acl| && 2 + |EncodeAll(acl[..i])| <= n < 2 + |EncodeAll(acl[..i])| + Words(acl[i])
  {
    var last := |acl| - 1;
    if n < 2 + |EncodeAll(acl[..last])| {
      i := Crossing(acl[..last], n);
      assert acl[..last][..i] == acl[..i];
    } else {
      i := last;
    }
  }

  /** Valid in the sense of the POSIX draft: owner, group and others once each, a mask where anything is named. */
  ghost predicate Valid(acl: seq<Entry>) {
    && Good(acl) && Tally(acl, UserObj) == 1 && Tally(acl, GroupObj) == 1 && Tally(acl, Other) == 1
    && Tally(acl, Mask) <= 1 && (Longs(acl) > 0 ==> Tally(acl, Mask) == 1)
  }

  function Tally(acl: seq<Entry>, t: Tag): nat {
    if acl == [] then 0 else Tally(acl[..|acl| - 1], t) + if acl[|acl| - 1].tag == t then 1 else 0
  }

  lemma {:induction false} Tallies(acl: seq<Entry>)
    requires Good(acl)
    ensures |acl| == Longs(acl) + Tally(acl, UserObj) + Tally(acl, GroupObj) + Tally(acl, Other) + Tally(acl, Mask)
  {
    if acl != [] { Tallies(acl[..|acl| - 1]); }
  }

  lemma ValidFits(acl: seq<Entry>)
    requires Valid(acl)
    ensures Fits(acl) && Encodes([VERSION, 0] + EncodeAll(acl), acl)
  {
    Tallies(acl);
    EncodedLength(acl);
  }
}
