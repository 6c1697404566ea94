/** Instructions for the native Ed25519 program: writing them without repeating messages, and reading them. */
module Ed25519 {
  import opened Wrappers
  import opened Encoding

  const SIGNATURE_SIZE: nat := 64
  const PUBKEY_SIZE: nat := 32
  const ENTRY_SIZE: nat := 14
  const U16_LIMIT: nat := 0x1_0000

  // Stands for the instruction itself where an instruction is named.
  const THIS_INSTRUCTION: nat := 0xffff

  type SignatureBytes = s: seq<Byte> | |s| == SIGNATURE_SIZE witness seq(64, i => 0)
  type PubKeyBytes = s: seq<Byte> | |s| == PUBKEY_SIZE witness seq(32, i => 0)

  datatype Entry = Entry(signature: SignatureBytes, pubkey: PubKeyBytes, message: seq<Byte>)

  datatype Error = UnsupportedFeature | BadData

  /** Where in the instruction data signature, key and message of an entry are. */
  datatype Offsets = Offsets(signature: nat, pubkey: nat, message: nat, messageSize: nat) {
    predicate Fits() {
      signature < U16_LIMIT && pubkey < U16_LIMIT && message < U16_LIMIT && messageSize < U16_LIMIT
    }

    function Bytes(): (bytes: seq<Byte>)
      requires Fits()
      ensures |bytes| == ENTRY_SIZE
    {
      Little(signature) + Little(THIS_INSTRUCTION) + Little(pubkey) + Little(THIS_INSTRUCTION)
      + Little(message) + Little(messageSize) + Little(THIS_INSTRUCTION)
    }
  }

  // ----- reading

  function U16At(bytes: seq<Byte>, i: nat): nat
    requires i + 2 <= |bytes|
  {
    var low: nat, high: nat := bytes[i], bytes[i + 1];
    high * 256 + low
  }

  function DecodeEntry(data: seq<Byte>, entry: seq<Byte>): Result<Entry, Error>
    requires |entry| == ENTRY_SIZE
  {
    var sig, key, msg, size := U16At(entry, 0), U16At(entry, 4), U16At(entry, 8), U16At(entry, 10);
    if U16At(entry, 2) != THIS_INSTRUCTION || U16At(entry, 6) != THIS_INSTRUCTION || U16At(entry, 12) != THIS_INSTRUCTION
    then Err(UnsupportedFeature)
    else if sig + SIGNATURE_SIZE > |data| || key + PUBKEY_SIZE > |data| || msg + size > |data| then Err(BadData)
    else Ok(Entry(data[sig..sig + SIGNATURE_SIZE], data[key..key + PUBKEY_SIZE], data[msg..msg + size]))
  }

  function Descriptor(data: seq<Byte>, i: nat): seq<Byte>
    requires 2 + (i + 1) * ENTRY_SIZE <= |data|
  {
    data[2 + i * ENTRY_SIZE..2 + (i + 1) * ENTRY_SIZE]
  }

  function DecodeEntries(data: seq<Byte>, count: nat): seq<Result<Entry, Error>>
    requires 2 + count * ENTRY_SIZE <= |data|
  {
    if count == 0 then []
    else DecodeEntries(data, count - 1) + [DecodeEntry(data, Descriptor(data, count - 1))]
  }

  /** The entries of an instruction; `None` when the data is none of the program's. */
  function ParseData(data: seq<Byte>): Option<seq<Result<Entry, Error>>> {
    if |data| < 2 || data[1] != 0 || (|data| - 2) / ENTRY_SIZE < data[0] then None
    else Some(DecodeEntries(data, data[0]))
  }

  // ----- writing

  /** Most that the given entries can take up, not counting the descriptors. */
  function BodyCapacity(entries: seq<Entry>): nat {
    if entries == [] then 0
    else BodyCapacity(entries[..|entries| - 1]) + |entries[|entries| - 1].message| + SIGNATURE_SIZE + PUBKEY_SIZE
  }

  /** Whether the message of an entry starts the message of an earlier one. */
  predicate Repeated(entries: seq<Entry>, i: nat)
    requires i < |entries|
  {
    exists j | 0 <= j < i :: entries[i].message <= entries[j].message
  }

  /** What the given entries do take up: repeated messages nothing. */
  function BodySize(entries: seq<Entry>): nat {
    if entries == [] then 0
    else
      var n := |entries| - 1;
      BodySize(entries[..n]) + (if Repeated(entries, n) then 0 else |entries[n].message|) + SIGNATURE_SIZE + PUBKEY_SIZE
  }

  lemma BodySizeMore(entries: seq<Entry>, i: nat)
    requires i < |entries|
    ensures BodySize(entries[..i + 1]) ==
            BodySize(entries[..i]) + (if Repeated(entries, i) then 0 else |entries[i].message|) + SIGNATURE_SIZE + PUBKEY_SIZE
  {
    var next := entries[..i + 1];
    assert next[..i] == entries[..i];
    assert Repeated(next, i) <==> Repeated(entries, i) by {
      assert forall j | 0 <= j <= i :: next[j] == entries[j];
    }
  }

  lemma {:induction false} BodySizeWithin(entries: seq<Entry>)
    ensures BodySize(entries) <= BodyCapacity(entries)
  {
    if entries != [] {
      BodySizeWithin(entries[..|entries| - 1]);
    }
  }

  function HeadSize(n: nat): nat {
    2 + ENTRY_SIZE * n
  }

  function Capacity(entries: seq<Entry>): nat {
    HeadSize(|entries|) + BodyCapacity(entries)
  }

  /** The descriptor leads to the entry, given what follows the first `base` bytes. */
  predicate Leads(o: Offsets, e: Entry, base: nat, body: seq<Byte>) {
    && o.Fits() && base <= o.signature && base <= o.pubkey && base <= o.message
    && o.signature - base + SIGNATURE_SIZE <= |body| && o.pubkey - base + PUBKEY_SIZE <= |body|
    && o.message - base + o.messageSize <= |body|
    && body[o.signature - base..][..SIGNATURE_SIZE] == e.signature
    && body[o.pubkey - base..][..PUBKEY_SIZE] == e.pubkey
    && body[o.message - base..][..o.messageSize] == e.message
  }

  predicate AllLead(os: seq<Offsets>, es: seq<Entry>, base: nat, body: seq<Byte>) {
    |os| == |es| && forall i | 0 <= i < |os| :: Leads(os[i], es[i], base, body)
  }

  lemma StillLeads(o: Offsets, e: Entry, base: nat, body: seq<Byte>, more: seq<Byte>)
    requires Leads(o, e, base, body)
    ensures Leads(o, e, base, body + more)
  {
    var longer := body + more;
    assert longer[o.signature - base..][..SIGNATURE_SIZE] == body[o.signature - base..][..SIGNATURE_SIZE];
    assert longer[o.pubkey - base..][..PUBKEY_SIZE] == body[o.pubkey - base..][..PUBKEY_SIZE];
    assert longer[o.message - base..][..o.messageSize] == body[o.message - base..][..o.messageSize];
  }

  /** A shorter message is found where a longer one starts. */
  lemma LeadsToPrefix(o: Offsets, e: Entry, base: nat, body: seq<Byte>, message: seq<Byte>)
    requires Leads(o, e, base, body) && message <= e.message
    ensures o.message - base + |message| <= |body| && body[o.message - base..][..|message|] == message
    ensures |message| < U16_LIMIT
  {
    var there := body[o.message - base..];
    assert there[..|message|] == there[..o.messageSize][..|message|];
  }

  lemma BodyCapacityMore(entries: seq<Entry>, i: nat)
    requires i < |entries|
    ensures BodyCapacity(entries[..i + 1]) ==
            BodyCapacity(entries[..i]) + |entries[i].message| + SIGNATURE_SIZE + PUBKEY_SIZE
  {
    assert entries[..i + 1][..i] == entries[..i];
  }

  lemma {:induction false} BodyCapacityRises(entries: seq<Entry>, i: nat)
    requires i <= |entries|
    ensures BodyCapacity(entries[..i]) <= BodyCapacity(entries)
    decreases |entries| - i
  {
    if i < |entries| {
      BodyCapacityMore(entries, i);
      BodyCapacityRises(entries, i + 1);
    } else {
      assert entries[..i] == entries;
    }
  }

  function Flatten(os: seq<Offsets>): (bytes: seq<Byte>)
    requires forall i | 0 <= i < |os| :: os[i].Fits()
    ensures |bytes| == ENTRY_SIZE * |os|
  {
    if os == [] then [] else Flatten(os[..|os| - 1]) + os[|os| - 1].Bytes()
  }

  /** Position of the first earlier entry whose message starts with the given one. */
  method FindMessage(entries: seq<Entry>, index: nat, message: seq<Byte>) returns (r: Option<nat>)
    requires index <= |entries|
    ensures r.Some? ==> r.value < index && message <= entries[r.value].message
    ensures r.None? ==> forall i | 0 <= i < index :: !(message <= entries[i].message)
  {
    for i := 0 to index
      invariant forall j | 0 <= j < i :: !(message <= entries[j].message)
    {
      if message <= entries[i].message {
        return Some(i);
      }
    }
    return None;
  }

  /** The new descriptor leads to the entry just written. */
  lemma NewLeads(e: Entry, base: nat, body: seq<Byte>, message: nat)
    requires base + |body| + SIGNATURE_SIZE + PUBKEY_SIZE <= U16_LIMIT && |e.message| < U16_LIMIT
    requires base <= message && message - base + |e.message| <= |body| && body[message - base..][..|e.message|] == e.message
    ensures Leads(Offsets(base + |body|, base + |body| + SIGNATURE_SIZE, message, |e.message|), e, base,
                  body + e.signature + e.pubkey)
  {
    var longer := body + e.signature + e.pubkey;
    assert longer[|body|..][..SIGNATURE_SIZE] == e.signature;
    assert longer[|body| + SIGNATURE_SIZE..][..PUBKEY_SIZE] == e.pubkey;
    assert longer[message - base..][..|e.message|] == body[message - base..][..|e.message|];
  }

  lemma AllStillLead(os: seq<Offsets>, es: seq<Entry>, base: nat, body: seq<Byte>, more: seq<Byte>)
    requires AllLead(os, es, base, body)
    ensures AllLead(os, es, base, body + more)
  {
    hide Leads;
    forall i | 0 <= i < |os|
      ensures Leads(os[i], es[i], base, body + more)
    {
      StillLeads(os[i], es[i], base, body, more);
    }
  }

  lemma OneMoreLeads(os: seq<Offsets>, es: seq<Entry>, i: nat, base: nat, body: seq<Byte>, o: Offsets)
    requires i < |es| && AllLead(os, es[..i], base, body) && Leads(o, es[i], base, body)
    ensures AllLead(os + [o], es[..i + 1], base, body)
  {
    hide Leads;
    assert es[..i + 1] == es[..i] + [es[i]];
  }

  /** The descriptors of the first `index` entries, and what they lead to. */
  ghost predicate Written(entries: seq<Entry>, index: nat, offsets: seq<Offsets>, body: seq<Byte>)
  {
    && index <= |entries|
    && AllLead(offsets, entries[..index], HeadSize(|entries|), body)
    && |body| == BodySize(entries[..index])
  }

  /** There is room for signature and key of an entry whose message is in the body already. */
  lemma EntryFits(entries: seq<Entry>, index: nat, body: seq<Byte>)
    requires index < |entries| && Capacity(entries) < U16_LIMIT
    requires |body| == BodySize(entries[..index]) + (if Repeated(entries, index) then 0 else |entries[index].message|)
    ensures |body| + SIGNATURE_SIZE + PUBKEY_SIZE == BodySize(entries[..index + 1])
    ensures HeadSize(|entries|) + |body| + SIGNATURE_SIZE + PUBKEY_SIZE < U16_LIMIT
  {
    hide BodyCapacity;
    hide BodySize;
    hide Repeated;
    BodyCapacityRises(entries, index + 1);
    BodySizeMore(entries, index);
    BodySizeWithin(entries[..index + 1]);
  }

  /** Signature and key of an entry whose message is in the body already. */
  lemma EntryWritten(entries: seq<Entry>, index: nat, offsets: seq<Offsets>, body: seq<Byte>, message: nat)
    requires index < |entries| && Capacity(entries) < U16_LIMIT
    requires var (e, base) := (entries[index], HeadSize(|entries|));
      && AllLead(offsets, entries[..index], base, body)
      && |body| == BodySize(entries[..index]) + (if Repeated(entries, index) then 0 else |e.message|)
      && |e.message| < U16_LIMIT
      && base <= message && message - base + |e.message| <= |body|
      && body[message - base..][..|e.message|] == e.message
    ensures var (e, at) := (entries[index], HeadSize(|entries|) + |body|);
      && at + SIGNATURE_SIZE + PUBKEY_SIZE < U16_LIMIT
      && Written(entries, index + 1, offsets + [Offsets(at, at + SIGNATURE_SIZE, message, |e.message|)],
                 body + e.signature + e.pubkey)
  {
    hide Leads;
    hide AllLead;
    hide BodySize;
    hide Repeated;
    hide HeadSize;
    hide Capacity;
    var (e, base) := (entries[index], HeadSize(|entries|));
    EntryFits(entries, index, body);
    NewLeads(e, base, body, message);
    AllStillLead(offsets, entries[..index], base, body, e.signature + e.pubkey);
    var longer := body + e.signature + e.pubkey;
    assert body + (e.signature + e.pubkey) == longer;
    OneMoreLeads(offsets, entries, index, base, longer,
      Offsets(base + |body|, base + |body| + SIGNATURE_SIZE, message, |e.message|));
  }

  /** A message found in an earlier entry is where that entry's message is. */
  lemma {:induction false} MessageReused(entries: seq<Entry>, index: nat, offsets: seq<Offsets>, body: seq<Byte>, pos: nat)
    requires index < |entries| && Written(entries, index, offsets, body)
    requires pos < index && entries[index].message <= entries[pos].message
    ensures pos < |offsets| && Repeated(entries, index)
    ensures var (at, base, message) := (offsets[pos].message, HeadSize(|entries|), entries[index].message);
      && base <= at && at - base + |message| <= |body| && body[at - base..][..|message|] == message
      && |message| < U16_LIMIT
  {
    hide Leads;
    assert entries[..index][pos] == entries[pos];
    LeadsToPrefix(offsets[pos], entries[pos], HeadSize(|entries|), body, entries[index].message);
    LeadsAbove(offsets[pos], entries[pos], HeadSize(|entries|), body);
  }

  lemma MessageAppended(entries: seq<Entry>, index: nat, offsets: seq<Offsets>, body: seq<Byte>)
    requires index < |entries| && Written(entries, index, offsets, body) && Capacity(entries) < U16_LIMIT
    ensures var message := entries[index].message;
      && AllLead(offsets, entries[..index], HeadSize(|entries|), body + message)
      && (body + message)[|body|..][..|message|] == message
      && |message| < U16_LIMIT
  {
    hide Leads;
    BodyCapacityMore(entries, index);
    BodyCapacityRises(entries, index + 1);
    AllStillLead(offsets, entries[..index], HeadSize(|entries|), body, entries[index].message);
  }

  /** Writes the instruction: the descriptors, then messages not written yet, signatures and keys. */
  method WriteInstructionData(entries: seq<Entry>) returns (data: seq<Byte>)
    requires |entries| < 256 && Capacity(entries) < U16_LIMIT
    ensures |data| == HeadSize(|entries|) + BodySize(entries)
    ensures ParseData(data) == Some(seq(|entries|, i requires 0 <= i < |entries| => Ok(entries[i])))
  {
    hide AllLead;
    hide Leads;
    hide ParseData;
    hide BodySize;
    var len := HeadSize(|entries|);
    var offsets: seq<Offsets>, body: seq<Byte> := [], [];
    NothingWritten(entries);
    for index := 0 to |entries|
      invariant len == HeadSize(|entries|) + |body| && Written(entries, index, offsets, body)
    {
      var entry := entries[index];
      var pos := FindMessage(entries, index, entry.message);
      var message: nat;
      if pos.Some? {
        MessageReused(entries, index, offsets, body, pos.value);
        message := offsets[pos.value].message;
      } else {
        MessageAppended(entries, index, offsets, body);
        body := body + entry.message;
        message := len;
        len := len + |entry.message|;
      }
      EntryWritten(entries, index, offsets, body, message);
      body := body + entry.signature + entry.pubkey;
      offsets := offsets + [Offsets(len, len + SIGNATURE_SIZE, message, |entry.message|)];
      len := len + SIGNATURE_SIZE + PUBKEY_SIZE;
    }
    assert entries[..|entries|] == entries;
    AllFit(offsets, entries, HeadSize(|entries|), body);
    data := [|entries|, 0] + Flatten(offsets) + body;
    ParsesBack(entries, offsets, body);
  }

  lemma NothingWritten(entries: seq<Entry>)
    ensures Written(entries, 0, [], [])
  {
  }

  lemma LeadsAbove(o: Offsets, e: Entry, base: nat, body: seq<Byte>)
    requires Leads(o, e, base, body)
    ensures base <= o.message
  {
  }

  lemma AllFit(os: seq<Offsets>, es: seq<Entry>, base: nat, body: seq<Byte>)
    requires AllLead(os, es, base, body)
    ensures |os| == |es| && forall i | 0 <= i < |os| :: os[i].Fits()
  {
  }

  /** Creates the instruction; `None` when there are too many entries or they might not fit. */
  method NewInstruction(entries: seq<Entry>) returns (r: Option<seq<Byte>>)
    ensures r.Some? <==> |entries| < 256 && Capacity(entries) < U16_LIMIT
    ensures r.Some? ==> ParseData(r.value) == Some(seq(|entries|, i requires 0 <= i < |entries| => Ok(entries[i])))
  {
    if |entries| >= 256 {
      return None;
    }
    var capacity := 2 + (ENTRY_SIZE + SIGNATURE_SIZE + PUBKEY_SIZE) * |entries|;
    for i := 0 to |entries|
      invariant capacity == HeadSize(|entries|) + BodyCapacity(entries[..i])
                            + (SIGNATURE_SIZE + PUBKEY_SIZE) * (|entries| - i)
      invariant capacity < U16_LIMIT
    {
      BodyCapacityMore(entries, i);
      BodyCapacityLeft(entries, i + 1);
      BodyCapacityLeft(entries, i);
      if |entries[i].message| >= U16_LIMIT {
        return None;
      }
      capacity := capacity + |entries[i].message|;
      if capacity >= U16_LIMIT {
        return None;
      }
    }
    assert entries[..|entries|] == entries;
    var data := WriteInstructionData(entries);
    return Some(data);
  }

  lemma {:induction false} BodyCapacityLeft(entries: seq<Entry>, i: nat)
    requires i <= |entries|
    ensures BodyCapacity(entries) >= BodyCapacity(entries[..i]) + (SIGNATURE_SIZE + PUBKEY_SIZE) * (|entries| - i)
    decreases |entries| - i
  {
    if i < |entries| {
      BodyCapacityMore(entries, i);
      BodyCapacityLeft(entries, i + 1);
    } else {
      assert entries[..i] == entries;
    }
  }

  // ----- reading back

  lemma ReadOffsets(o: Offsets)
    requires o.Fits()
    ensures var b := o.Bytes();
      && U16At(b, 0) == o.signature && U16At(b, 4) == o.pubkey && U16At(b, 8) == o.message && U16At(b, 10) == o.messageSize
      && U16At(b, 2) == U16At(b, 6) == U16At(b, 12) == THIS_INSTRUCTION
  {
  }

  lemma {:induction false} FlattenAt(os: seq<Offsets>, i: nat)
    requires (forall j | 0 <= j < |os| :: os[j].Fits()) && i < |os|
    ensures Flatten(os)[i * ENTRY_SIZE..(i + 1) * ENTRY_SIZE] == os[i].Bytes()
  {
    var n := |os| - 1;
    hide Offsets.Bytes;
    if i < n {
      FlattenAt(os[..n], i);
      assert Flatten(os)[i * ENTRY_SIZE..(i + 1) * ENTRY_SIZE] == Flatten(os[..n])[i * ENTRY_SIZE..(i + 1) * ENTRY_SIZE];
    }
  }

  lemma {:induction false} EntryReadsBack(e: Entry, o: Offsets, head: seq<Byte>, body: seq<Byte>)
    requires Leads(o, e, |head|, body)
    ensures DecodeEntry(head + body, o.Bytes()) == Ok(e)
  {
    ReadOffsets(o);
    hide Offsets.Bytes;
    hide U16At;
    var (data, n) := (head + body, |head|);
    assert data[o.signature..o.signature + SIGNATURE_SIZE] == body[o.signature - n..][..SIGNATURE_SIZE];
    assert data[o.pubkey..o.pubkey + PUBKEY_SIZE] == body[o.pubkey - n..][..PUBKEY_SIZE];
    assert data[o.message..o.message + o.messageSize] == body[o.message - n..][..o.messageSize];
  }

  lemma {:induction false} EntriesReadBack(es: seq<Entry>, os: seq<Offsets>, count: Byte, body: seq<Byte>, n: nat)
    requires AllLead(os, es, HeadSize(|es|), body) && n <= |es|
    requires forall i | 0 <= i < |os| :: os[i].Fits()
    ensures DecodeEntries([count, 0] + Flatten(os) + body, n) == seq(n, i requires 0 <= i < n => Ok(es[i]))
  {
    hide Leads;
    hide Offsets.Bytes;
    hide DecodeEntry;
    if n > 0 {
      var i := n - 1;
      EntriesReadBack(es, os, count, body, i);
      var head := [count, 0] + Flatten(os);
      FlattenAt(os, i);
      assert Descriptor(head + body, i) == Flatten(os)[i * ENTRY_SIZE..(i + 1) * ENTRY_SIZE];
      EntryReadsBack(es[i], os[i], head, body);
    }
  }

  lemma ParsesBack(es: seq<Entry>, os: seq<Offsets>, body: seq<Byte>)
    requires |es| < 256 && AllLead(os, es, HeadSize(|es|), body)
    requires forall i | 0 <= i < |os| :: os[i].Fits()
    ensures ParseData([|es|, 0] + Flatten(os) + body) == Some(seq(|es|, i requires 0 <= i < |es| => Ok(es[i])))
  {
    hide Leads;
    hide DecodeEntries;
    hide Flatten;
    EntriesReadBack(es, os, |es|, body, |es|);
  }

  // ----- where everything is

  predicate Holds(data: seq<Byte>, at: nat, part: seq<Byte>) {
    at + |part| <= |data| && data[at..at + |part|] == part
  }

  /** Descriptor `i`, fourteen bytes each behind the first two, is that of the entry: offset of the signature,
      then of the key, then of the message and its size, least significant bytes first, each followed by the
      mark for the instruction itself. */
  predicate Describes(data: seq<Byte>, i: nat, e: Entry)
    requires 2 + 14 * (i + 1) <= |data|
  {
    var d: seq<nat> := data[2 + 14 * i..2 + 14 * (i + 1)];
    && d[2] == d[3] == d[6] == d[7] == d[12] == d[13] == 0xff
    && Holds(data, d[0] + 256 * d[1], e.signature)
    && Holds(data, d[4] + 256 * d[5], e.pubkey)
    && Holds(data, d[8] + 256 * d[9], e.message)
    && d[10] + 256 * d[11] == |e.message|
  }

  /** Parsing finds exactly the entries the descriptors describe. */
  lemma {:induction false} EntryLayout(data: seq<Byte>, i: nat, e: Entry)
    requires ParseData(data).Some?
    ensures var es := ParseData(data).value;
      && 2 + 14 * |es| <= |data| && |es| == data[0] && data[1] == 0
      && (i < |es| ==> (es[i] == Ok(e) <==> Describes(data, i, e)))
  {
    hide DecodeEntry;
    DecodedAt(data, data[0], i);
    if i < data[0] {
      EntryDescribed(data, i, e);
    }
  }

  /** What is no instruction, and what of an entry is refused: a mark for another instruction comes first. */
  lemma {:induction false} Refused(data: seq<Byte>, i: nat)
    ensures ParseData(data).None? <==> |data| < 2 || data[1] != 0 || |data| < HeadSize(data[0])
    ensures ParseData(data).Some? && i < data[0] ==>
      var d := Descriptor(data, i);
      && i < |ParseData(data).value|
      && (ParseData(data).value[i] == Err(UnsupportedFeature) <==>
            !(d[2] == d[3] == d[6] == d[7] == d[12] == d[13] == 0xff))
  {
    if ParseData(data).Some? {
      DecodedAt(data, data[0], i);
    }
  }

  lemma EntryDescribed(data: seq<Byte>, i: nat, e: Entry)
    requires 2 + 14 * (i + 1) <= |data|
    ensures DecodeEntry(data, Descriptor(data, i)) == Ok(e) <==> Describes(data, i, e)
  {
    hide U16At;
    DescriptorParts(Descriptor(data, i));
  }

  lemma DescriptorParts(d: seq<Byte>)
    requires |d| == ENTRY_SIZE
    ensures var n: seq<nat> := d;
      && U16At(d, 0) == n[0] + 256 * n[1] && U16At(d, 4) == n[4] + 256 * n[5]
      && U16At(d, 8) == n[8] + 256 * n[9] && U16At(d, 10) == n[10] + 256 * n[11]
      && (U16At(d, 2) == THIS_INSTRUCTION <==> n[2] == n[3] == 0xff)
      && (U16At(d, 6) == THIS_INSTRUCTION <==> n[6] == n[7] == 0xff)
      && (U16At(d, 12) == THIS_INSTRUCTION <==> n[12] == n[13] == 0xff)
  {
  }

  lemma {:induction false} DecodedAt(data: seq<Byte>, count: nat, i: nat)
    requires 2 + count * ENTRY_SIZE <= |data|
    ensures |DecodeEntries(data, count)| == count
    ensures i < count ==> DecodeEntries(data, count)[i] == DecodeEntry(data, Descriptor(data, i))
  {
    hide DecodeEntry;
    if count > 0 {
      DecodedAt(data, count - 1, i);
    }
  }
}
