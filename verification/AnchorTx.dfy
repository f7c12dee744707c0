/** Raw Solana transactions: the cursor-based parser and its inverse, a serializer. */
module AnchorTx {
  import opened Bytes
  import opened Codec

  const BLOCKHASH_LEN := 32

  datatype Version = Legacy | V0

  /** An instruction with its program and accounts resolved to keys. */
  datatype Instruction = Instruction(programId: bytes, accounts: seq<bytes>, data: bytes)

  datatype ParsedTransaction = ParsedTransaction(
    version: Version, signatures: seq<bytes>, message: bytes, numRequired: nat,
    staticKeys: seq<bytes>, instructions: seq<Instruction>)

  /** A value read and the cursor after it. */
  datatype Read<+T> = Read(value: T, pos: nat)

  // ---------------------------------------------------------------- compact-u16

  function Pow128(k: nat): (p: nat)
    ensures p >= 1
  {
    if k == 0 then 1 else 128 * Pow128(k - 1)
  }

  /** Seven bits per byte, least significant group first, at most three bytes. */
  function ReadCompactFrom(buf: bytes, pos: nat, group: nat): Option<Read<nat>>
    requires group <= 2
    decreases 3 - group
  {
    if pos >= |buf| then None
    else
      var low := buf[pos] % 128;
      if buf[pos] < 128 then Some(Read(low * Pow128(group), pos + 1))
      else if group == 2 then None
      else
        match ReadCompactFrom(buf, pos + 1, group + 1)
        case None => None
        case Some(r) => Some(Read(low * Pow128(group) + r.value, r.pos))
  }

  function ReadCompact(buf: bytes, pos: nat): Option<Read<nat>> { ReadCompactFrom(buf, pos, 0) }

  lemma {:induction false} OrZeroLeft(b: nat)
    ensures Or(0, b) == b
  {
    if b > 0 {
      OrZeroLeft(b / 2);
    }
  }

  /** A value below 2^e and a multiple of 2^e share no bit, so OR adds them. */
  lemma {:induction false} OrAdds(a: nat, b: nat, e: nat)
    requires a < Pow2(e)
    ensures Or(a, b * Pow2(e)) == a + b * Pow2(e)
  {
    if e == 0 {
      OrZeroLeft(b);
    } else {
      var half := b * Pow2(e - 1);
      assert b * Pow2(e) == 2 * half;
      OrAdds(a / 2, b, e - 1);
    }
  }

  lemma SevenDoublings(e: nat)
    ensures Pow2(e + 7) == 128 * Pow2(e)
  {
    assert Pow2(e + 1) == 2 * Pow2(e);
    assert Pow2(e + 2) == 2 * Pow2(e + 1);
    assert Pow2(e + 3) == 2 * Pow2(e + 2);
    assert Pow2(e + 4) == 2 * Pow2(e + 3);
    assert Pow2(e + 5) == 2 * Pow2(e + 4);
    assert Pow2(e + 6) == 2 * Pow2(e + 5);
  }

  lemma Pow128Is(k: nat)
    ensures Pow128(k) == Pow2(7 * k)
  {
    if k > 0 {
      Pow128Is(k - 1);
      SevenDoublings(7 * (k - 1));
    }
  }

  lemma LowBelow(value: nat, low: nat, p: nat)
    requires value < p && low < 128
    ensures value + low * p < 128 * p
  {
    assert (127 - low) * p >= 0;
  }

  /** Seven bits shifted left past the groups before them. */
  function Shifted(low: nat, group: nat): nat { low * Pow2(7 * group) }

  /** ORing the next seven bits in adds them, above all the bits read so far. */
  lemma OrGroup(value: nat, low: nat, group: nat)
    requires value < Pow128(group) && low < 128
    ensures Or(value, Shifted(low, group)) == value + low * Pow128(group)
    ensures value + low * Pow128(group) < Pow128(group + 1)
  {
    Pow128Is(group);
    OrAdds(value, low, 7 * group);
    LowBelow(value, low, Pow128(group));
    assert Pow128(group + 1) == 128 * Pow128(group);
  }

  /** What is read when the groups before gave a value. */
  function Above(value: nat, r: Option<Read<nat>>): Option<Read<nat>> {
    match r
    case None => None
    case Some(rest) => Some(Read(value + rest.value, rest.pos))
  }

  /** One turn: the group at the cursor is ORed in. */
  lemma ReadGroup(buf: bytes, pos: nat, value: nat, group: nat)
    requires group <= 2 && value < Pow128(group) && pos < |buf|
    ensures var next := Or(value, Shifted(buf[pos] % 128, group));
            && next < Pow128(group + 1)
            && Above(value, ReadCompactFrom(buf, pos, group))
               == if buf[pos] < 128 then Some(Read(next, pos + 1)) else if group == 2 then None
                  else Above(next, ReadCompactFrom(buf, pos + 1, group + 1))
  {
    OrGroup(value, buf[pos] % 128, group);
  }

  /** Reads the groups from the least significant up, ORing each shifted group in. */
  method RunReadCompact(buf: bytes, offset: nat) returns (r: Option<Read<nat>>)
    ensures r == ReadCompact(buf, offset)
  {
    var value: nat, group: nat, pos: nat := 0, 0, offset;
    while true
      invariant group <= 2 && value < Pow128(group)
      invariant ReadCompact(buf, offset) == Above(value, ReadCompactFrom(buf, pos, group))
      decreases 3 - group
    {
      if pos >= |buf| { return None; }
      ReadGroup(buf, pos, value, group);
      var b := buf[pos];
      pos := pos + 1;
      value := Or(value, Shifted(b % 128, group));
      if b < 128 { return Some(Read(value, pos)); }
      if group == 2 { return None; }
      group := group + 1;
    }
  }

  /** The canonical encoding of a 16-bit length. */
  function WriteCompact(n: nat): bytes {
    if n < 0x80 then [n]
    else if n < 0x4000 then [n % 128 + 128, n / 128]
    else [n % 128 + 128, n / 128 % 128 + 128, n / 16384 % 128]
  }

  /** s stands at pos in buf. */
  ghost predicate HasAt(buf: bytes, pos: nat, s: bytes) {
    pos + |s| <= |buf| && buf[pos..pos + |s|] == s
  }

  lemma HasAtSplit(buf: bytes, pos: nat, a: bytes, b: bytes)
    requires HasAt(buf, pos, a + b)
    ensures HasAt(buf, pos, a) && HasAt(buf, pos + |a|, b)
  {
    assert buf[pos..pos + |a + b|][..|a|] == a && buf[pos..pos + |a + b|][|a|..] == b;
  }

  lemma ReadOneByte(buf: bytes, pos: nat, a: nat)
    requires pos < |buf| && buf[pos] == a < 128
    ensures ReadCompact(buf, pos) == Some(Read(a, pos + 1))
  {
  }

  lemma ReadTwoBytes(buf: bytes, pos: nat, a: nat, b: nat)
    requires pos + 2 <= |buf| && buf[pos] == a + 128 && buf[pos + 1] == b && a < 128 && b < 128
    ensures ReadCompact(buf, pos) == Some(Read(a + b * 128, pos + 2))
  {
    assert Pow128(1) == 128;
    assert ReadCompactFrom(buf, pos + 1, 1) == Some(Read(b * 128, pos + 2));
  }

  lemma ReadThreeBytes(buf: bytes, pos: nat, a: nat, b: nat, c: nat)
    requires pos + 3 <= |buf| && a < 128 && b < 128 && c < 128
    requires buf[pos] == a + 128 && buf[pos + 1] == b + 128 && buf[pos + 2] == c
    ensures ReadCompact(buf, pos) == Some(Read(a + b * 128 + c * 16384, pos + 3))
  {
    assert Pow128(1) == 128 && Pow128(2) == 16384;
    assert ReadCompactFrom(buf, pos + 2, 2) == Some(Read(c * 16384, pos + 3));
    assert ReadCompactFrom(buf, pos + 1, 1) == Some(Read(b * 128 + c * 16384, pos + 3));
  }

  lemma GroupsOf(n: nat)
    requires n <= 0xFFFF
    ensures n < 0x4000 ==> n == n % 128 + n / 128 * 128 && n / 128 < 128
    ensures n == n % 128 + n / 128 % 128 * 128 + n / 16384 * 16384 && n / 16384 % 128 == n / 16384
  {
  }

  lemma HasAtBytes(buf: bytes, pos: nat, s: bytes)
    requires HasAt(buf, pos, s)
    ensures forall i :: 0 <= i < |s| ==> buf[pos + i] == s[i]
  {
    forall i | 0 <= i < |s| ensures buf[pos + i] == s[i] {
      assert buf[pos..pos + |s|][i] == s[i];
    }
  }

  lemma ReadWritten(buf: bytes, pos: nat, n: nat)
    requires n <= 0xFFFF && HasAt(buf, pos, WriteCompact(n))
    ensures ReadCompact(buf, pos) == Some(Read(n, pos + |WriteCompact(n)|))
  {
    var w := WriteCompact(n);
    GroupsOf(n);
    HasAtBytes(buf, pos, w);
    assert buf[pos + 0] == w[0];
    if n < 0x80 {
      ReadOneByte(buf, pos, n);
    } else if n < 0x4000 {
      ReadTwoBytes(buf, pos, n % 128, n / 128);
    } else {
      ReadThreeBytes(buf, pos, n % 128, n / 128 % 128, n / 16384);
    }
  }

  // ---------------------------------------------------------------- the parser as functions on a cursor

  /** n consecutive blocks of `len` bytes. */
  function ReadBlocks(buf: bytes, pos: nat, n: nat, len: nat): Option<Read<seq<bytes>>>
    decreases n
  {
    if n == 0 then Some(Read([], pos))
    else if pos + len > |buf| then None
    else
      match ReadBlocks(buf, pos + len, n - 1, len)
      case None => None
      case Some(r) => Some(Read([buf[pos..pos + len]] + r.value, r.pos))
  }

  /** Resolves account indices; None if one lies beyond the static keys. */
  function Resolve(indices: bytes, keys: seq<bytes>): (r: Option<seq<bytes>>)
    ensures r.Some? ==> |r.value| == |indices|
    ensures r.Some? <==> forall i :: 0 <= i < |indices| ==> indices[i] < |keys|
    ensures r.Some? ==> forall i :: 0 <= i < |indices| ==> r.value[i] == keys[indices[i]]
  {
    if indices == [] then Some([])
    else if indices[0] >= |keys| then None
    else
      match Resolve(indices[1..], keys)
      case None => None
      case Some(r) => Some([keys[indices[0]]] + r)
  }

  /** A compact length and that many bytes. */
  function ReadCounted(buf: bytes, pos: nat): Option<Read<bytes>> {
    match ReadCompact(buf, pos)
    case None => None
    case Some(n) =>
      if n.pos + n.value > |buf| then None else Some(Read(buf[n.pos..n.pos + n.value], n.pos + n.value))
  }

  function ReadInstruction(buf: bytes, pos: nat, keys: seq<bytes>): Option<Read<Instruction>> {
    if pos + 1 > |buf| then None else
    var accounts := ReadCounted(buf, pos + 1);
    if accounts.None? then None else
    var resolved := Resolve(accounts.value.value, keys);
    if resolved.None? then None else
    var data := ReadCounted(buf, accounts.value.pos);
    if data.None? || buf[pos] >= |keys| then None
    else Some(Read(Instruction(keys[buf[pos]], resolved.value, data.value.value), data.value.pos))
  }

  /** What a loop has pushed so far, followed by what it has yet to read. */
  function Pushed<T>(done: seq<T>, r: Option<Read<seq<T>>>): Option<Read<seq<T>>> {
    match r
    case None => None
    case Some(r) => Some(Read(done + r.value, r.pos))
  }

  /** n items in a row, each read where the one before it ended. */
  function ReadMany<T>(read: nat -> Option<Read<T>>, pos: nat, n: nat): Option<Read<seq<T>>>
    decreases n
  {
    if n == 0 then Some(Read([], pos))
    else
      match read(pos)
      case None => None
      case Some(first) => Pushed([first.value], ReadMany(read, first.pos, n - 1))
  }

  function InstructionReader(buf: bytes, keys: seq<bytes>): nat -> Option<Read<Instruction>> {
    (pos: nat) => ReadInstruction(buf, pos, keys)
  }

  /** The version prefix: the version and the cursor of the header. */
  function ReadVersion(message: bytes): Option<Read<Version>> {
    if |message| < 1 then None
    else if message[0] < 128 then Some(Read(Legacy, 0))
    else if message[0] % 128 != 0 then None
    else Some(Read(V0, 1))
  }

  /** A compact count and that many blocks of `len` bytes. */
  function ReadBlockList(buf: bytes, pos: nat, len: nat): Option<Read<seq<bytes>>> {
    match ReadCompact(buf, pos)
    case None => None
    case Some(n) => ReadBlocks(buf, n.pos, n.value, len)
  }

  /** A compact count and that many instructions. */
  function ReadInstructionList(buf: bytes, pos: nat, keys: seq<bytes>): Option<Read<seq<Instruction>>> {
    match ReadCompact(buf, pos)
    case None => None
    case Some(n) => ReadMany(InstructionReader(buf, keys), n.pos, n.value)
  }

  /** The rest of the message, once its keys have been read. */
  function ParseBody(message: bytes, signatures: seq<bytes>, version: Version, numRequired: nat,
                     keys: Read<seq<bytes>>): Option<ParsedTransaction> {
    if keys.pos + BLOCKHASH_LEN > |message| then None
    else
      match ReadInstructionList(message, keys.pos + BLOCKHASH_LEN, keys.value)
      case None => None
      case Some(ixs) =>
        if |signatures| != numRequired || numRequired > |keys.value| then None
        else Some(ParsedTransaction(version, signatures, message, numRequired, keys.value, ixs.value))
  }

  function ParseMessage(message: bytes, signatures: seq<bytes>): Option<ParsedTransaction> {
    match ReadVersion(message)
    case None => None
    case Some(v) =>
      if v.pos + 3 > |message| then None
      else
        match ReadBlockList(message, v.pos + 3, PUBKEY_LEN)
        case None => None
        case Some(keys) => ParseBody(message, signatures, v.value, message[v.pos], keys)
  }

  /** Signatures, then the message; None for truncated or malformed bytes. */
  function ParseRawTransaction(raw: bytes): Option<ParsedTransaction> {
    match ReadBlockList(raw, 0, SIGNATURE_LEN)
    case None => None
    case Some(signatures) =>
      if signatures.pos > |raw| then None else ParseMessage(raw[signatures.pos..], signatures.value)
  }

  // ---------------------------------------------------------------- the parser as it runs

  lemma PushOne<T>(done: seq<T>, x: T, r: Option<Read<seq<T>>>)
    ensures Pushed(done, Pushed([x], r)) == Pushed(done + [x], r)
  {
    if r.Some? {
      assert done + ([x] + r.value.value) == (done + [x]) + r.value.value;
    }
  }

  lemma PushNone<T>(r: Option<Read<seq<T>>>)
    ensures Pushed([], r) == r
  {
    if r.Some? {
      assert [] + r.value.value == r.value.value;
    }
  }

  method RunReadBlocks(buf: bytes, start: nat, n: nat, len: nat) returns (r: Option<Read<seq<bytes>>>)
    ensures r == ReadBlocks(buf, start, n, len)
  {
    var out: seq<bytes>, pos: nat := [], start;
    PushNone(ReadBlocks(buf, start, n, len));
    for i := 0 to n
      invariant ReadBlocks(buf, start, n, len) == Pushed(out, ReadBlocks(buf, pos, n - i, len))
    {
      if pos + len > |buf| { return None; }
      PushOne(out, buf[pos..pos + len], ReadBlocks(buf, pos + len, n - i - 1, len));
      out := out + [buf[pos..pos + len]];
      pos := pos + len;
    }
    assert out + [] == out;
    return Some(Read(out, pos));
  }

  method RunResolve(indices: bytes, keys: seq<bytes>) returns (r: Option<seq<bytes>>)
    ensures r == Resolve(indices, keys)
  {
    var out: seq<bytes> := [];
    for j := 0 to |indices|
      invariant |out| == j
      invariant forall k :: 0 <= k < j ==> indices[k] < |keys| && out[k] == keys[indices[k]]
    {
      if indices[j] >= |keys| { return None; }
      out := out + [keys[indices[j]]];
    }
    assert out == Resolve(indices, keys).value;
    return Some(out);
  }

  method RunReadCounted(buf: bytes, start: nat) returns (r: Option<Read<bytes>>)
    ensures r == ReadCounted(buf, start)
  {
    var n := RunReadCompact(buf, start);
    if n.None? { return None; }
    var m := n.value.pos;
    if m + n.value.value > |buf| { return None; }
    return Some(Read(buf[m..m + n.value.value], m + n.value.value));
  }

  method RunReadInstruction(buf: bytes, start: nat, keys: seq<bytes>) returns (r: Option<Read<Instruction>>)
    ensures r == ReadInstruction(buf, start, keys)
  {
    var m := start;
    if m + 1 > |buf| { return None; }
    var programIdx := buf[m];
    m := m + 1;
    var indices := RunReadCounted(buf, m);
    if indices.None? { return None; }
    var accounts := RunResolve(indices.value.value, keys);
    if accounts.None? { return None; }
    m := indices.value.pos;
    var data := RunReadCounted(buf, m);
    if data.None? { return None; }
    if programIdx >= |keys| { return None; }
    return Some(Read(Instruction(keys[programIdx], accounts.value, data.value.value), data.value.pos));
  }

  method RunReadInstructions(buf: bytes, start: nat, n: nat, keys: seq<bytes>) returns (r: Option<Read<seq<Instruction>>>)
    ensures r == ReadMany(InstructionReader(buf, keys), start, n)
  {
    ghost var read := InstructionReader(buf, keys);
    var out: seq<Instruction>, m: nat := [], start;
    PushNone(ReadMany(read, start, n));
    for i := 0 to n
      invariant ReadMany(read, start, n) == Pushed(out, ReadMany(read, m, n - i))
    {
      var ix := RunReadInstruction(buf, m, keys);
      assert read(m) == ix;
      if ix.None? { return None; }
      PushOne(out, ix.value.value, ReadMany(read, ix.value.pos, n - i - 1));
      out := out + [ix.value.value];
      m := ix.value.pos;
    }
    assert out + [] == out;
    return Some(Read(out, m));
  }

  method RunReadBlockList(buf: bytes, start: nat, len: nat) returns (r: Option<Read<seq<bytes>>>)
    ensures r == ReadBlockList(buf, start, len)
  {
    var n := RunReadCompact(buf, start);
    if n.None? { return None; }
    r := RunReadBlocks(buf, n.value.pos, n.value.value, len);
  }

  /** The instructions and the final count checks. */
  method RunParseBody(message: bytes, signatures: seq<bytes>, version: Version, numRequired: nat, keys: Read<seq<bytes>>)
    returns (r: Option<ParsedTransaction>)
    ensures r == ParseBody(message, signatures, version, numRequired, keys)
  {
    var m := keys.pos;
    if m + BLOCKHASH_LEN > |message| { return None; }
    m := m + BLOCKHASH_LEN;
    var nix := RunReadCompact(message, m);
    if nix.None? { return None; }
    var ixs := RunReadInstructions(message, nix.value.pos, nix.value.value, keys.value);
    if ixs.None? { return None; }
    if |signatures| != numRequired || numRequired > |keys.value| { return None; }
    return Some(ParsedTransaction(version, signatures, message, numRequired, keys.value, ixs.value.value));
  }

  method RunParseMessage(message: bytes, signatures: seq<bytes>) returns (r: Option<ParsedTransaction>)
    ensures r == ParseMessage(message, signatures)
  {
    var m := 0;
    if |message| < 1 { return None; }
    var version := Legacy;
    if message[0] >= 128 {
      if message[0] % 128 != 0 { return None; }
      version, m := V0, 1;
    }
    if m + 3 > |message| { return None; }
    var numRequired := message[m];
    m := m + 3;
    var keys := RunReadBlockList(message, m, PUBKEY_LEN);
    if keys.None? { return None; }
    r := RunParseBody(message, signatures, version, numRequired, keys.value);
  }

  lemma {:induction false} CompactInside(buf: bytes, pos: nat, group: nat)
    requires group <= 2
    ensures var r := ReadCompactFrom(buf, pos, group); r.Some? ==> pos < r.value.pos <= |buf|
    decreases 3 - group
  {
    if pos < |buf| && buf[pos] >= 128 && group < 2 {
      CompactInside(buf, pos + 1, group + 1);
    }
  }

  /** The blocks read are the bytes between the two cursors, each of the asked length. */
  lemma {:induction false} BlocksInside(buf: bytes, pos: nat, n: nat, len: nat)
    requires pos <= |buf|
    ensures var r := ReadBlocks(buf, pos, n, len);
            r.Some? ==>
              && pos <= r.value.pos <= |buf| && |r.value.value| == n
              && (forall i :: 0 <= i < n ==> |r.value.value[i]| == len)
              && Flatten(r.value.value) == buf[pos..r.value.pos]
    decreases n
  {
    if n > 0 && pos + len <= |buf| {
      BlocksInside(buf, pos + len, n - 1, len);
      var r, rest := ReadBlocks(buf, pos, n, len), ReadBlocks(buf, pos + len, n - 1, len);
      if r.Some? {
        assert r.value.value[1..] == rest.value.value;
        assert buf[pos..r.value.pos] == buf[pos..pos + len] + buf[pos + len..r.value.pos];
      }
    }
  }

  lemma BlockListInside(buf: bytes, pos: nat, len: nat)
    ensures var r := ReadBlockList(buf, pos, len);
            r.Some? ==>
              && pos < r.value.pos <= |buf|
              && (forall i :: 0 <= i < |r.value.value| ==> |r.value.value[i]| == len)
              && exists at :: pos < at <= r.value.pos && Flatten(r.value.value) == buf[at..r.value.pos]
  {
    var n := ReadCompact(buf, pos);
    if n.Some? {
      CompactInside(buf, pos, 0);
      BlocksInside(buf, n.value.pos, n.value.value, len);
    }
  }

  method RunParseRawTransaction(raw: bytes) returns (r: Option<ParsedTransaction>)
    ensures r == ParseRawTransaction(raw)
  {
    var signatures := RunReadBlockList(raw, 0, SIGNATURE_LEN);
    if signatures.None? { return None; }
    BlockListInside(raw, 0, SIGNATURE_LEN);
    r := RunParseMessage(raw[signatures.value.pos..], signatures.value.value);
  }

  // ---------------------------------------------------------------- every input: inside the buffer or refused

  /** Program and accounts are static keys, the data is a slice of the message. */
  ghost predicate InstructionInside(buf: bytes, keys: seq<bytes>, ix: Instruction) {
    && ix.programId in keys
    && (forall i :: 0 <= i < |ix.accounts| ==> ix.accounts[i] in keys)
    && exists from, to :: 0 <= from <= to <= |buf| && ix.data == buf[from..to]
  }

  lemma CountedInside(buf: bytes, pos: nat) returns (from: nat, to: nat)
    requires ReadCounted(buf, pos).Some?
    ensures from <= to <= |buf| && ReadCounted(buf, pos).value.value == buf[from..to]
  {
    var n := ReadCompact(buf, pos).value;
    from, to := n.pos, n.pos + n.value;
  }

  lemma InstructionReadInside(buf: bytes, pos: nat, keys: seq<bytes>)
    requires ReadInstruction(buf, pos, keys).Some?
    ensures InstructionInside(buf, keys, ReadInstruction(buf, pos, keys).value.value)
  {
    var accounts := ReadCounted(buf, pos + 1).value;
    var from, to := CountedInside(buf, accounts.pos);
  }

  /** What holds of every item read holds of all of them. */
  lemma {:induction false} ReadManyAll<T>(read: nat -> Option<Read<T>>, pos: nat, n: nat, good: T -> bool)
    requires forall p: nat :: read(p).Some? ==> good(read(p).value.value)
    requires ReadMany(read, pos, n).Some?
    ensures var items := ReadMany(read, pos, n).value.value; forall i :: 0 <= i < |items| ==> good(items[i])
    decreases n
  {
    if n > 0 {
      ReadManyAll(read, read(pos).value.pos, n - 1, good);
    }
  }

  /** As many signatures as required signers, each with a static key, and instructions that name static keys. */
  ghost predicate MessageInside(tx: ParsedTransaction) {
    && tx.numRequired == |tx.signatures| <= |tx.staticKeys|
    && (forall i :: 0 <= i < |tx.staticKeys| ==> |tx.staticKeys[i]| == PUBKEY_LEN)
    && forall i :: 0 <= i < |tx.instructions| ==> InstructionInside(tx.message, tx.staticKeys, tx.instructions[i])
  }

  lemma TailInHalves(raw: bytes, at: nat, mid: nat)
    requires at <= mid <= |raw|
    ensures raw[at..] == raw[at..mid] + raw[mid..]
  {
  }

  lemma InstructionListInside(buf: bytes, pos: nat, keys: seq<bytes>)
    requires ReadInstructionList(buf, pos, keys).Some?
    ensures var ixs := ReadInstructionList(buf, pos, keys).value.value;
            forall i :: 0 <= i < |ixs| ==> InstructionInside(buf, keys, ixs[i])
  {
    var n, read := ReadCompact(buf, pos).value, InstructionReader(buf, keys);
    ghost var good := ix => InstructionInside(buf, keys, ix);
    forall p: nat | read(p).Some? ensures good(read(p).value.value) {
      InstructionReadInside(buf, p, keys);
    }
    ReadManyAll(read, n.pos, n.value, good);
  }

  lemma BodyInside(message: bytes, signatures: seq<bytes>, version: Version, numRequired: nat, keys: Read<seq<bytes>>)
    requires forall i :: 0 <= i < |keys.value| ==> |keys.value[i]| == PUBKEY_LEN
    requires ParseBody(message, signatures, version, numRequired, keys).Some?
    ensures var tx := ParseBody(message, signatures, version, numRequired, keys).value;
            && tx.message == message && tx.signatures == signatures && MessageInside(tx)
            && tx.version == version && tx.numRequired == numRequired
  {
    InstructionListInside(message, keys.pos + BLOCKHASH_LEN, keys.value);
  }

  lemma MessageToBody(message: bytes, signatures: seq<bytes>, m: nat, keys: Read<seq<bytes>>)
    requires ReadVersion(message).Some? && ReadVersion(message).value.pos == m && m + 3 <= |message|
    requires ReadBlockList(message, m + 3, PUBKEY_LEN).Some? && keys == ReadBlockList(message, m + 3, PUBKEY_LEN).value
    ensures ParseMessage(message, signatures) == ParseBody(message, signatures, ReadVersion(message).value.value,
                                                           message[m], keys)
  {
  }

  /** The first byte tells the version, and the header that follows the number of required signers. */
  ghost predicate HeaderInside(tx: ParsedTransaction) {
    && |tx.message| >= 2
    && (tx.version == Legacy <==> tx.message[0] < 128) && (tx.version == V0 <==> tx.message[0] == 128)
    && tx.numRequired == tx.message[if tx.version == Legacy then 0 else 1]
  }

  lemma HeaderFollows(tx: ParsedTransaction, v: Read<Version>)
    requires ReadVersion(tx.message) == Some(v) && v.pos + 3 <= |tx.message|
    requires tx.version == v.value && tx.numRequired == tx.message[v.pos]
    ensures HeaderInside(tx)
  {
  }

  lemma KeysFollow(message: bytes, signatures: seq<bytes>) returns (v: Read<Version>, keys: Read<seq<bytes>>)
    requires ParseMessage(message, signatures).Some?
    ensures ReadVersion(message) == Some(v) && v.pos + 3 <= |message|
    ensures ReadBlockList(message, v.pos + 3, PUBKEY_LEN) == Some(keys)
    ensures ParseMessage(message, signatures) == ParseBody(message, signatures, v.value, message[v.pos], keys)
  {
    v := ReadVersion(message).value;
    keys := ReadBlockList(message, v.pos + 3, PUBKEY_LEN).value;
  }

  lemma ParsedMessageInside(message: bytes, signatures: seq<bytes>)
    requires ParseMessage(message, signatures).Some?
    ensures var tx := ParseMessage(message, signatures).value;
            tx.message == message && tx.signatures == signatures && MessageInside(tx) && HeaderInside(tx)
  {
    var v, keys := KeysFollow(message, signatures);
    BlockListInside(message, v.pos + 3, PUBKEY_LEN);
    BodyInside(message, signatures, v.value, message[v.pos], keys);
    HeaderFollows(ParseMessage(message, signatures).value, v);
  }

  /**
   * Whatever the bytes, a parsed transaction lies inside them: its signatures and
   * message are the tail of the input, every key has its length, and there are
   * exactly as many signatures as required signers, each with a static key.
   */
  lemma ParsedInsideInput(raw: bytes)
    requires ParseRawTransaction(raw).Some?
    ensures var tx := ParseRawTransaction(raw).value;
            && MessageInside(tx) && HeaderInside(tx)
            && (forall i :: 0 <= i < |tx.signatures| ==> |tx.signatures[i]| == SIGNATURE_LEN)
            && exists at :: 0 < at <= |raw| && raw[at..] == Flatten(tx.signatures) + tx.message
  {
    BlockListInside(raw, 0, SIGNATURE_LEN);
    var sigs := ReadBlockList(raw, 0, SIGNATURE_LEN).value;
    var at :| 0 < at <= sigs.pos && Flatten(sigs.value) == raw[at..sigs.pos];
    TailInHalves(raw, at, sigs.pos);
    ParsedMessageInside(raw[sigs.pos..], sigs.value);
  }

  /** Signer i is static key i. ParsedInsideInput shows that every parsed transaction may be passed. */
  method VerifyTransactionSignatures(ed25519: (bytes, bytes, bytes) -> bool, tx: ParsedTransaction)
    returns (signers: Option<seq<bytes>>)
    requires tx.numRequired == |tx.signatures| <= |tx.staticKeys|
    ensures signers.Some? <==> forall i :: 0 <= i < tx.numRequired ==>
              ed25519(tx.message, tx.signatures[i], tx.staticKeys[i])
    ensures signers.Some? ==> signers.value == tx.staticKeys[..tx.numRequired]
  {
    var out: seq<bytes> := [];
    for i := 0 to tx.numRequired
      invariant out == tx.staticKeys[..i]
      invariant forall j :: 0 <= j < i ==> ed25519(tx.message, tx.signatures[j], tx.staticKeys[j])
    {
      var key := tx.staticKeys[i];
      if !ed25519(tx.message, tx.signatures[i], key) { return None; }
      out := out + [key];
    }
    return Some(out);
  }

  // ---------------------------------------------------------------- the serializer

  datatype RawInstruction = RawInstruction(program: byte, accounts: bytes, data: bytes)

  datatype Transaction = Transaction(
    version: Version, signatures: seq<bytes>, readonlySigned: byte, readonlyUnsigned: byte,
    keys: seq<bytes>, blockhash: bytes, instructions: seq<RawInstruction>)

  ghost predicate WellFormedInstruction(keys: seq<bytes>, ix: RawInstruction) {
    && ix.program < |keys| && |ix.accounts| <= 0xFFFF && |ix.data| <= 0xFFFF
    && forall i :: 0 <= i < |ix.accounts| ==> ix.accounts[i] < |keys|
  }

  ghost predicate WellFormed(tx: Transaction) {
    && |tx.signatures| <= |tx.keys| <= 0xFFFF && |tx.signatures| < (if tx.version == Legacy then 128 else 256)
    && (forall i :: 0 <= i < |tx.signatures| ==> |tx.signatures[i]| == 64)
    && (forall i :: 0 <= i < |tx.keys| ==> |tx.keys[i]| == 32)
    && |tx.blockhash| == 32 && |tx.instructions| <= 0xFFFF
    && forall i :: 0 <= i < |tx.instructions| ==> WellFormedInstruction(tx.keys, tx.instructions[i])
  }

  function WriteCounted(payload: bytes): bytes { WriteCompact(|payload|) + payload }

  function WriteInstruction(ix: RawInstruction): bytes {
    [ix.program] + (WriteCounted(ix.accounts) + WriteCounted(ix.data))
  }

  function WriteMany<T>(write: T -> bytes, items: seq<T>): bytes {
    if items == [] then [] else write(items[0]) + WriteMany(write, items[1..])
  }

  function Map<T, U>(f: T -> U, items: seq<T>): seq<U> {
    if items == [] then [] else [f(items[0])] + Map(f, items[1..])
  }

  /** The instruction writer as a value. */
  function InstructionWriter(): RawInstruction -> bytes { (ix: RawInstruction) => WriteInstruction(ix) }

  function WriteBlockList(parts: seq<bytes>): bytes { WriteCompact(|parts|) + Flatten(parts) }

  function WriteInstructionList(ixs: seq<RawInstruction>): bytes {
    WriteCompact(|ixs|) + WriteMany(InstructionWriter(), ixs)
  }

  function VersionPrefix(v: Version): bytes { if v == V0 then [128] else [] }

  function WriteMessage(tx: Transaction): bytes
    requires WellFormed(tx)
  {
    VersionPrefix(tx.version)
    + ([|tx.signatures|, tx.readonlySigned, tx.readonlyUnsigned]
       + (WriteBlockList(tx.keys) + (tx.blockhash + WriteInstructionList(tx.instructions))))
  }

  function Serialize(tx: Transaction): bytes
    requires WellFormed(tx)
  {
    WriteBlockList(tx.signatures) + WriteMessage(tx)
  }

  /** The instruction with its indices replaced by the keys they name; an index without a key names nothing. */
  function ResolveOne(keys: seq<bytes>, ix: RawInstruction): Instruction {
    Instruction(if ix.program < |keys| then keys[ix.program] else [],
                seq(|ix.accounts|,
                    i requires 0 <= i < |ix.accounts| => if ix.accounts[i] < |keys| then keys[ix.accounts[i]] else []),
                ix.data)
  }

  function Resolver(keys: seq<bytes>): RawInstruction -> Instruction {
    (ix: RawInstruction) => ResolveOne(keys, ix)
  }

  // ---------------------------------------------------------------- round trip

  lemma {:induction false} ReadWrittenBlocks(buf: bytes, pos: nat, parts: seq<bytes>, len: nat)
    requires forall i :: 0 <= i < |parts| ==> |parts[i]| == len
    requires HasAt(buf, pos, Flatten(parts))
    ensures ReadBlocks(buf, pos, |parts|, len) == Some(Read(parts, pos + |Flatten(parts)|))
    decreases |parts|
  {
    if parts != [] {
      HasAtSplit(buf, pos, parts[0], Flatten(parts[1..]));
      ReadWrittenBlocks(buf, pos + len, parts[1..], len);
      assert parts == [parts[0]] + parts[1..];
    }
  }

  /** A written count reads back, and what it counts follows. */
  lemma ReadWrittenCount(buf: bytes, pos: nat, n: nat, payload: bytes) returns (at: nat)
    requires n <= 0xFFFF && HasAt(buf, pos, WriteCompact(n) + payload)
    ensures ReadCompact(buf, pos) == Some(Read(n, at)) && HasAt(buf, at, payload)
    ensures at + |payload| == pos + |WriteCompact(n) + payload|
  {
    HasAtSplit(buf, pos, WriteCompact(n), payload);
    ReadWritten(buf, pos, n);
    at := pos + |WriteCompact(n)|;
  }

  lemma ReadWrittenCounted(buf: bytes, pos: nat, payload: bytes)
    requires |payload| <= 0xFFFF && HasAt(buf, pos, WriteCounted(payload))
    ensures ReadCounted(buf, pos) == Some(Read(payload, pos + |WriteCounted(payload)|))
  {
    var _ := ReadWrittenCount(buf, pos, |payload|, payload);
  }

  lemma ResolveWritten(keys: seq<bytes>, ix: RawInstruction)
    requires WellFormedInstruction(keys, ix)
    ensures Resolve(ix.accounts, keys) == Some(ResolveOne(keys, ix).accounts)
  {
    assert Resolve(ix.accounts, keys).value == ResolveOne(keys, ix).accounts;
  }

  lemma ProgramWritten(buf: bytes, pos: nat, program: byte, rest: bytes)
    requires HasAt(buf, pos, [program] + rest)
    ensures pos + 1 <= |buf| && buf[pos] == program && HasAt(buf, pos + 1, rest)
  {
    HasAtSplit(buf, pos, [program], rest);
    assert buf[pos] == buf[pos..pos + 1][0];
  }

  lemma ReadWrittenInstruction(buf: bytes, pos: nat, keys: seq<bytes>, ix: RawInstruction)
    requires WellFormedInstruction(keys, ix) && HasAt(buf, pos, WriteInstruction(ix))
    ensures ReadInstruction(buf, pos, keys) == Some(Read(ResolveOne(keys, ix), pos + |WriteInstruction(ix)|))
  {
    var a, d := WriteCounted(ix.accounts), WriteCounted(ix.data);
    ProgramWritten(buf, pos, ix.program, a + d);
    HasAtSplit(buf, pos + 1, a, d);
    ReadWrittenCounted(buf, pos + 1, ix.accounts);
    ReadWrittenCounted(buf, pos + 1 + |a|, ix.data);
    ResolveWritten(keys, ix);
  }

  /** Reading undoes writing the item, at every cursor. */
  ghost predicate Undoes<T, U>(buf: bytes, read: nat -> Option<Read<U>>, write: T -> bytes, meaning: T -> U, item: T) {
    forall p: nat :: HasAt(buf, p, write(item)) ==> read(p) == Some(Read(meaning(item), p + |write(item)|))
  }

  /** Reading many undoes writing many when reading one undoes writing one. */
  lemma {:induction false} ReadManyWritten<T, U>(buf: bytes, pos: nat, read: nat -> Option<Read<U>>,
                                                 write: T -> bytes, meaning: T -> U, items: seq<T>)
    requires forall i :: 0 <= i < |items| ==> Undoes(buf, read, write, meaning, items[i])
    requires HasAt(buf, pos, WriteMany(write, items))
    ensures ReadMany(read, pos, |items|) == Some(Read(Map(meaning, items), pos + |WriteMany(write, items)|))
    decreases |items|
  {
    if items != [] {
      var first, rest := write(items[0]), items[1..];
      HasAtSplit(buf, pos, first, WriteMany(write, rest));
      assert forall i :: 0 <= i < |rest| ==> rest[i] == items[i + 1];
      ReadManyWritten(buf, pos + |first|, read, write, meaning, rest);
    }
  }

  lemma ReadWrittenBlockList(buf: bytes, pos: nat, parts: seq<bytes>, len: nat)
    requires |parts| <= 0xFFFF && forall i :: 0 <= i < |parts| ==> |parts[i]| == len
    requires HasAt(buf, pos, WriteBlockList(parts))
    ensures ReadBlockList(buf, pos, len) == Some(Read(parts, pos + |WriteBlockList(parts)|))
  {
    var at := ReadWrittenCount(buf, pos, |parts|, Flatten(parts));
    ReadWrittenBlocks(buf, at, parts, len);
  }

  lemma ReaderUndoesWriter(buf: bytes, keys: seq<bytes>, p: nat, ix: RawInstruction)
    requires WellFormedInstruction(keys, ix) && HasAt(buf, p, InstructionWriter()(ix))
    ensures InstructionReader(buf, keys)(p) == Some(Read(Resolver(keys)(ix), p + |InstructionWriter()(ix)|))
  {
    ReadWrittenInstruction(buf, p, keys, ix);
  }

  lemma InstructionUndone(buf: bytes, keys: seq<bytes>, ix: RawInstruction)
    requires WellFormedInstruction(keys, ix)
    ensures Undoes(buf, InstructionReader(buf, keys), InstructionWriter(), Resolver(keys), ix)
  {
    forall p: nat | HasAt(buf, p, InstructionWriter()(ix))
      ensures InstructionReader(buf, keys)(p) == Some(Read(Resolver(keys)(ix), p + |InstructionWriter()(ix)|))
    {
      ReaderUndoesWriter(buf, keys, p, ix);
    }
  }

  lemma ReadWrittenInstructions(buf: bytes, pos: nat, keys: seq<bytes>, ixs: seq<RawInstruction>)
    requires forall i :: 0 <= i < |ixs| ==> WellFormedInstruction(keys, ixs[i])
    requires HasAt(buf, pos, WriteMany(InstructionWriter(), ixs))
    ensures var r := ReadMany(InstructionReader(buf, keys), pos, |ixs|);
            r.Some? && r.value.value == Map(Resolver(keys), ixs)
  {
    forall i | 0 <= i < |ixs|
      ensures Undoes(buf, InstructionReader(buf, keys), InstructionWriter(), Resolver(keys), ixs[i])
    {
      InstructionUndone(buf, keys, ixs[i]);
    }
    ReadManyWritten(buf, pos, InstructionReader(buf, keys), InstructionWriter(), Resolver(keys), ixs);
  }

  lemma CountThenInstructions(buf: bytes, pos: nat, keys: seq<bytes>, n: nat, at: nat)
    requires ReadCompact(buf, pos) == Some(Read(n, at))
    ensures ReadInstructionList(buf, pos, keys) == ReadMany(InstructionReader(buf, keys), at, n)
  {
  }

  lemma ReadWrittenInstructionList(buf: bytes, pos: nat, keys: seq<bytes>, ixs: seq<RawInstruction>)
    requires |ixs| <= 0xFFFF && forall i :: 0 <= i < |ixs| ==> WellFormedInstruction(keys, ixs[i])
    requires HasAt(buf, pos, WriteInstructionList(ixs))
    ensures var r := ReadInstructionList(buf, pos, keys); r.Some? && r.value.value == Map(Resolver(keys), ixs)
  {
    var at := ReadWrittenCount(buf, pos, |ixs|, WriteMany(InstructionWriter(), ixs));
    ReadWrittenInstructions(buf, at, keys, ixs);
    CountThenInstructions(buf, pos, keys, |ixs|, at);
  }

  lemma VersionRead(message: bytes, version: Version, rest: bytes)
    requires message == VersionPrefix(version) + rest && rest != [] && rest[0] < (if version == Legacy then 128 else 256)
    ensures ReadVersion(message) == Some(Read(version, |VersionPrefix(version)|))
  {
  }

  lemma PartsStand(message: bytes, a: bytes, b: bytes, c: bytes, d: bytes, e: bytes, trailing: bytes)
    requires message == (a + (b + (c + (d + e)))) + trailing
    ensures HasAt(message, |a|, b) && HasAt(message, |a| + |b|, c) && HasAt(message, |a| + |b| + |c| + |d|, e)
    ensures message == a + (b + (c + (d + e)) + trailing)
  {
    HasAtSplit(message, 0, a, b + (c + (d + e)));
    HasAtSplit(message, |a|, b, c + (d + e));
    HasAtSplit(message, |a| + |b|, c, d + e);
    HasAtSplit(message, |a| + |b| + |c|, d, e);
  }

  /** Where the parts of a written message stand. */
  lemma MessageLayout(tx: Transaction, trailing: bytes)
    requires WellFormed(tx)
    ensures var message, m := WriteMessage(tx) + trailing, |VersionPrefix(tx.version)|;
            var k := m + 3 + |WriteBlockList(tx.keys)|;
            && ReadVersion(message) == Some(Read(tx.version, m))
            && m + 3 <= |message| && message[m] == |tx.signatures|
            && HasAt(message, m + 3, WriteBlockList(tx.keys))
            && k + BLOCKHASH_LEN <= |message| && HasAt(message, k + BLOCKHASH_LEN, WriteInstructionList(tx.instructions))
  {
    var message, prefix := WriteMessage(tx) + trailing, VersionPrefix(tx.version);
    var header: bytes := [|tx.signatures|, tx.readonlySigned, tx.readonlyUnsigned];
    var keys, list := WriteBlockList(tx.keys), WriteInstructionList(tx.instructions);
    PartsStand(message, prefix, header, keys, tx.blockhash, list, trailing);
    HasAtBytes(message, |prefix|, header);
    assert message[|prefix| + 0] == header[0];
    VersionRead(message, tx.version, header + (keys + (tx.blockhash + list)) + trailing);
  }

  lemma BodyIs(message: bytes, signatures: seq<bytes>, version: Version, keys: Read<seq<bytes>>,
               ixs: Read<seq<Instruction>>)
    requires keys.pos + BLOCKHASH_LEN <= |message| && |signatures| <= |keys.value|
    requires ReadInstructionList(message, keys.pos + BLOCKHASH_LEN, keys.value) == Some(ixs)
    ensures ParseBody(message, signatures, version, |signatures|, keys)
         == Some(ParsedTransaction(version, signatures, message, |signatures|, keys.value, ixs.value))
  {
  }

  lemma MessageRoundTrip(tx: Transaction, trailing: bytes, message: bytes)
    requires WellFormed(tx) && message == WriteMessage(tx) + trailing
    ensures ParseMessage(message, tx.signatures)
         == Some(ParsedTransaction(tx.version, tx.signatures, message, |tx.signatures|, tx.keys,
                                   Map(Resolver(tx.keys), tx.instructions)))
  {
    var m := |VersionPrefix(tx.version)|;
    MessageLayout(tx, trailing);
    ReadWrittenBlockList(message, m + 3, tx.keys, PUBKEY_LEN);
    var keys := ReadBlockList(message, m + 3, PUBKEY_LEN).value;
    MessageToBody(message, tx.signatures, m, keys);
    var at := keys.pos + BLOCKHASH_LEN;
    ReadWrittenInstructionList(message, at, tx.keys, tx.instructions);
    BodyIs(message, tx.signatures, tx.version, keys, ReadInstructionList(message, at, tx.keys).value);
  }

  lemma SignaturesThenMessage(raw: bytes, signatures: seq<bytes>, at: nat)
    requires ReadBlockList(raw, 0, SIGNATURE_LEN) == Some(Read(signatures, at)) && at <= |raw|
    ensures ParseRawTransaction(raw) == ParseMessage(raw[at..], signatures)
  {
  }

  lemma SerializedHalves(a: bytes, b: bytes, trailing: bytes)
    ensures HasAt(a + b + trailing, 0, a) && (a + b + trailing)[|a|..] == b + trailing
  {
  }

  /** Parsing a serialized transaction, whatever follows it, gives back all it was made from. */
  lemma TransactionRoundTrip(tx: Transaction, trailing: bytes)
    requires WellFormed(tx)
    ensures ParseRawTransaction(Serialize(tx) + trailing)
         == Some(ParsedTransaction(tx.version, tx.signatures, WriteMessage(tx) + trailing, |tx.signatures|, tx.keys,
                                   Map(Resolver(tx.keys), tx.instructions)))
  {
    var raw, sigs := Serialize(tx) + trailing, WriteBlockList(tx.signatures);
    SerializedHalves(sigs, WriteMessage(tx), trailing);
    ReadWrittenBlockList(raw, 0, tx.signatures, SIGNATURE_LEN);
    SignaturesThenMessage(raw, tx.signatures, |sigs|);
    MessageRoundTrip(tx, trailing, WriteMessage(tx) + trailing);
  }
}
