/**
 * Block bodies in storage-chain mode: parts of extrinsics are kept under their content hash, and a
 * body is read back by joining what is left of each extrinsic with its indexed part.
 */
module IndexedBody {
  import opened Common

  type Hash = Bytes

  const U32_RANGE := 0x1_0000_0000

  /** The default hash, which stands for "nothing indexed". */
  const ZERO_HASH: Hash :=
    [0, 0, 0, 0, 0, 0, 0, 0, 0, 0, 0, 0, 0, 0, 0, 0,
     0, 0, 0, 0, 0, 0, 0, 0, 0, 0, 0, 0, 0, 0, 0, 0]

  // ---- Input in two pieces -----------------------------------------------

  datatype JoinInput = JoinInput(first: Bytes, second: Bytes)

  function ReadSlice(input: Bytes, n: nat): Option<(Bytes, Bytes)> {
    if n > |input| then None else Some((input[..n], input[n..]))
  }

  /** Takes from the first piece what it has, the rest from the second. */
  function ReadJoin(input: JoinInput, n: nat): Option<(Bytes, JoinInput)> {
    var read := if |input.first| > 0 then (if |input.first| < n then |input.first| else n) else 0;
    var head, first := input.first[..read], input.first[read..];
    if read < n then
      match ReadSlice(input.second, n - read)
      case None => None
      case Some((tail, second)) => Some((head + tail, JoinInput(first, second)))
    else Some((head, JoinInput(first, input.second)))
  }

  /** Each read gives what reading the joined bytes would. */
  lemma ReadJoinIsSlice(input: JoinInput, n: nat)
    ensures var joined := ReadSlice(input.first + input.second, n);
            match ReadJoin(input, n)
            case None => joined == None
            case Some((bytes, rest)) => joined == Some((bytes, rest.first + rest.second))
  {
    var all := input.first + input.second;
    if n <= |all| {
      if n <= |input.first| {
        assert all[..n] == input.first[..n] && all[n..] == input.first[n..] + input.second;
      } else {
        var m := n - |input.first|;
        assert all[..n] == input.first + input.second[..m];
        assert all[n..] == input.second[m..];
        assert input.first[..|input.first|] == input.first && input.first[|input.first|..] == [];
        assert [] + input.second[m..] == input.second[m..];
      }
    }
  }

  /** The same read into a buffer, advancing the two pieces in place. */
  class JoinReader {
    var first: Bytes
    var second: Bytes

    ghost function View(): JoinInput
      reads this
    {
      JoinInput(first, second)
    }

    constructor (first: Bytes, second: Bytes)
      ensures View() == JoinInput(first, second)
    {
      this.first, this.second := first, second;
    }

    method Read(into: array<Byte>) returns (ok: bool)
      modifies this, into
      ensures ok <==> ReadJoin(old(View()), into.Length).Some?
      ensures ok ==> ReadJoin(old(View()), into.Length) == Some((into[..], View()))
    {
      var read := 0;
      ghost var before := View();
      if |first| > 0 {
        read := if |first| < into.Length then |first| else into.Length;
        forall i | 0 <= i < read { into[i] := first[i]; }
        assert into[..read] == first[..read];
        first := first[read..];
      } else {
        assert into[..read] == first[..read] && first[read..] == first;
      }
      ghost var head := into[..read];
      assert head == before.first[..read] && first == before.first[read..];
      if read < into.Length {
        var n := into.Length - read;
        if n > |second| {
          return false;
        }
        forall i | 0 <= i < n { into[read + i] := second[i]; }
        assert into[..] == head + second[..n];
        second := second[n..];
      } else {
        assert into[..] == head;
      }
      return true;
    }
  }

  // ---- Decoding ----------------------------------------------------------

  /** A decoder's next move, given the chunks it has read: read `extra + 1` more bytes, finish, or give up. */
  datatype Move<T> = More(extra: nat) | Done(value: T) | GiveUp

  type Decoder<!T> = seq<Bytes> -> Move<T>

  function DecodeSlice<T>(decoder: Decoder<T>, input: Bytes, chunks: seq<Bytes>): Option<(T, Bytes)>
    decreases |input|
  {
    match decoder(chunks)
    case GiveUp => None
    case Done(value) => Some((value, input))
    case More(extra) =>
      match ReadSlice(input, extra + 1)
      case None => None
      case Some((chunk, rest)) => DecodeSlice(decoder, rest, chunks + [chunk])
  }

  function DecodeJoin<T>(decoder: Decoder<T>, input: JoinInput, chunks: seq<Bytes>): Option<(T, JoinInput)>
    decreases |input.first| + |input.second|
  {
    match decoder(chunks)
    case GiveUp => None
    case Done(value) => Some((value, input))
    case More(extra) =>
      match ReadJoin(input, extra + 1)
      case None => None
      case Some((chunk, rest)) => DecodeJoin(decoder, rest, chunks + [chunk])
  }

  /** However a decoder cuts its reads, joined input decodes as the joined bytes do. */
  lemma {:induction false} DecodeJoinIsSlice<T>(decoder: Decoder<T>, input: JoinInput, chunks: seq<Bytes>)
    ensures var joined := DecodeSlice(decoder, input.first + input.second, chunks);
            match DecodeJoin(decoder, input, chunks)
            case None => joined == None
            case Some((value, rest)) => joined == Some((value, rest.first + rest.second))
    decreases |input.first| + |input.second|
  {
    if decoder(chunks).More? {
      var n := decoder(chunks).extra + 1;
      ReadJoinIsSlice(input, n);
      match ReadJoin(input, n) {
        case None =>
        case Some((chunk, rest)) => DecodeJoinIsSlice(decoder, rest, chunks + [chunk]);
      }
    }
  }

  /** Decoding an encoded value gives it back and leaves exactly what follows. */
  ghost predicate SelfDelimiting<T(!new)>(encode: T -> Bytes, decoder: Decoder<T>) {
    forall x, tail :: DecodeSlice(decoder, encode(x) + tail, []) == Some((x, tail))
  }

  // ---- Splitting a body --------------------------------------------------

  datatype IndexOp = Insert(extrinsic: nat, hash: Hash, size: nat) | Renew(extrinsic: nat, hash: Hash)

  datatype ExtrinsicHeader = ExtrinsicHeader(indexedHash: Hash, data: Bytes)

  datatype StoreOp = StoreContent(hash: Hash, content: Bytes) | Reference(hash: Hash)

  /** For each extrinsic the last operation of its kind counts. */
  function Inserts(ops: seq<IndexOp>): map<nat, (Hash, nat)> {
    if ops == [] then map[] else
    var op := ops[|ops| - 1];
    var before := Inserts(ops[..|ops| - 1]);
    if op.Insert? then before[op.extrinsic := (op.hash, op.size)] else before
  }

  function Renewals(ops: seq<IndexOp>): map<nat, Hash> {
    if ops == [] then map[] else
    var op := ops[|ops| - 1];
    var before := Renewals(ops[..|ops| - 1]);
    if op.Renew? then before[op.extrinsic := op.hash] else before
  }

  /** The last insertion, and the last renewal, that the operations name for an extrinsic are the ones that count. */
  lemma {:induction false} LastOpCounts(ops: seq<IndexOp>, i: nat)
    ensures i in Inserts(ops) <==> exists n :: 0 <= n < |ops| && ops[n].Insert? && ops[n].extrinsic == i
    ensures i in Renewals(ops) <==> exists n :: 0 <= n < |ops| && ops[n].Renew? && ops[n].extrinsic == i
    ensures forall n :: 0 <= n < |ops| && ops[n].Insert? && ops[n].extrinsic == i
                        && (forall m :: n < m < |ops| ==> !(ops[m].Insert? && ops[m].extrinsic == i)) ==>
              i in Inserts(ops) && Inserts(ops)[i] == (ops[n].hash, ops[n].size)
    ensures forall n :: 0 <= n < |ops| && ops[n].Renew? && ops[n].extrinsic == i
                        && (forall m :: n < m < |ops| ==> !(ops[m].Renew? && ops[m].extrinsic == i)) ==>
              i in Renewals(ops) && Renewals(ops)[i] == ops[n].hash
  {
    if ops != [] {
      var last, before := ops[|ops| - 1], ops[..|ops| - 1];
      LastOpCounts(before, i);
      assert forall n :: 0 <= n < |before| ==> before[n] == ops[n];
    }
  }

  /** How one extrinsic is stored: renewed, split, or left whole. */
  function Split(encoded: Bytes, index: nat, inserts: map<nat, (Hash, nat)>, renewals: map<nat, Hash>): (ExtrinsicHeader, seq<StoreOp>) {
    var i := index % U32_RANGE;
    if i in renewals then (ExtrinsicHeader(renewals[i], encoded), [Reference(renewals[i])])
    else if i in inserts && inserts[i].1 <= |encoded| then
      var (hash, size) := inserts[i];
      var offset := |encoded| - size;
      (ExtrinsicHeader(hash, encoded[..offset]), [StoreContent(hash, encoded[offset..])])
    else (ExtrinsicHeader(ZERO_HASH, encoded), [])
  }

  function SplitAll(body: seq<Bytes>, index: nat, inserts: map<nat, (Hash, nat)>, renewals: map<nat, Hash>)
    : (seq<ExtrinsicHeader>, seq<StoreOp>)
    decreases |body|
  {
    if body == [] then ([], []) else
    var (header, ops) := Split(body[0], index, inserts, renewals);
    var (headers, rest) := SplitAll(body[1..], index + 1, inserts, renewals);
    ([header] + headers, ops + rest)
  }

  // ---- The content store -------------------------------------------------

  /** Contents by hash, with the number of references to each. */
  type Contents = map<Hash, (Bytes, nat)>

  /** Storing present content only counts the reference. */
  function ApplyStore(contents: Contents, op: StoreOp): Contents {
    match op
    case StoreContent(hash, content) =>
      if hash in contents then contents[hash := (contents[hash].0, contents[hash].1 + 1)] else contents[hash := (content, 1)]
    case Reference(hash) =>
      if hash in contents then contents[hash := (contents[hash].0, contents[hash].1 + 1)] else contents
  }

  function ApplyAll(contents: Contents, ops: seq<StoreOp>): Contents
    decreases |ops|
  {
    if ops == [] then contents else ApplyAll(ApplyStore(contents, ops[0]), ops[1..])
  }

  // ---- Reading back ------------------------------------------------------

  datatype BodyError = MissingIndexed(hash: Hash) | Undecodable

  function ReadExtrinsic<T>(decoder: Decoder<T>, header: ExtrinsicHeader, contents: Contents): Result<T, BodyError> {
    if header.indexedHash != ZERO_HASH then
      if header.indexedHash !in contents then Err(MissingIndexed(header.indexedHash))
      else match DecodeJoin(decoder, JoinInput(header.data, contents[header.indexedHash].0), [])
           case None => Err(Undecodable)
           case Some((value, _)) => Ok(value)
    else match DecodeSlice(decoder, header.data, [])
         case None => Err(Undecodable)
         case Some((value, _)) => Ok(value)
  }

  function ReadBody<T>(decoder: Decoder<T>, headers: seq<ExtrinsicHeader>, contents: Contents): Result<seq<T>, BodyError> {
    if headers == [] then Ok([])
    else match ReadExtrinsic(decoder, headers[0], contents)
         case Err(e) => Err(e)
         case Ok(x) =>
           match ReadBody(decoder, headers[1..], contents)
           case Err(e) => Err(e)
           case Ok(rest) => Ok([x] + rest)
  }

  // ---- Round trip --------------------------------------------------------

  /** Contents sit under their own hash. */
  ghost predicate Addressed(hash: Bytes -> Hash, contents: Contents) {
    forall h :: h in contents ==> hash(contents[h].0) == h
  }

  /** Hashes name one content each, and none is the zero hash. */
  ghost predicate ContentHash(hash: Bytes -> Hash) {
    (forall a, b :: hash(a) == hash(b) ==> a == b) && (forall a :: hash(a) != ZERO_HASH)
  }

  /** Each operation's hash is the content hash of what it splits off. */
  ghost predicate HashesRight(hash: Bytes -> Hash, ops: seq<StoreOp>) {
    forall i :: 0 <= i < |ops| && ops[i].StoreContent? ==> hash(ops[i].content) == ops[i].hash
  }

  lemma {:induction false} ApplyAllKeeps(hash: Bytes -> Hash, contents: Contents, ops: seq<StoreOp>)
    requires Addressed(hash, contents) && HashesRight(hash, ops)
    ensures Addressed(hash, ApplyAll(contents, ops))
    ensures forall h :: h in contents ==> h in ApplyAll(contents, ops)
    ensures forall i :: 0 <= i < |ops| && ops[i].StoreContent? ==> ops[i].hash in ApplyAll(contents, ops)
    decreases |ops|
  {
    if ops != [] {
      var next := ApplyStore(contents, ops[0]);
      assert Addressed(hash, next);
      assert forall i :: 0 <= i < |ops| - 1 ==> ops[1..][i] == ops[i + 1];
      ApplyAllKeeps(hash, next, ops[1..]);
      assert forall i :: 1 <= i < |ops| ==> ops[i] == ops[1..][i - 1];
    }
  }

  /** What a header needs in the store to give its extrinsic back. */
  ghost predicate Backed(header: ExtrinsicHeader, encoded: Bytes, contents: Contents) {
    || header.data == encoded
    || (header.indexedHash != ZERO_HASH && header.indexedHash in contents && header.data + contents[header.indexedHash].0 == encoded)
  }

  lemma ReadBacked<T(!new)>(encode: T -> Bytes, decoder: Decoder<T>, header: ExtrinsicHeader, x: T, contents: Contents)
    requires SelfDelimiting(encode, decoder) && Backed(header, encode(x), contents)
    ensures ReadExtrinsic(decoder, header, contents) ==
              if header.indexedHash == ZERO_HASH || header.indexedHash in contents then Ok(x) else Err(MissingIndexed(header.indexedHash))
  {
    if header.indexedHash == ZERO_HASH {
      assert header.data == encode(x) + [];
    } else if header.indexedHash in contents {
      var indexed := contents[header.indexedHash].0;
      DecodeJoinIsSlice(decoder, JoinInput(header.data, indexed), []);
      if header.data == encode(x) {
        assert DecodeSlice(decoder, encode(x) + indexed, []) == Some((x, indexed));
      } else {
        assert header.data + indexed == encode(x) + [];
      }
    }
    hide DecodeJoin;
  }

  lemma SplitBacked(hash: Bytes -> Hash, encoded: Bytes, index: nat, inserts: map<nat, (Hash, nat)>, renewals: map<nat, Hash>, contents: Contents)
    requires ContentHash(hash) && Addressed(hash, contents)
    requires var (header, ops) := Split(encoded, index, inserts, renewals);
             HashesRight(hash, ops) && forall i :: 0 <= i < |ops| && ops[i].StoreContent? ==> ops[i].hash in contents
    ensures Backed(Split(encoded, index, inserts, renewals).0, encoded, contents)
  {
    var (header, ops) := Split(encoded, index, inserts, renewals);
    var i := index % U32_RANGE;
    if i !in renewals && i in inserts && inserts[i].1 <= |encoded| {
      var offset := |encoded| - inserts[i].1;
      assert ops[0] == StoreContent(inserts[i].0, encoded[offset..]);
      assert hash(contents[header.indexedHash].0) == hash(encoded[offset..]);
      assert encoded == encoded[..offset] + encoded[offset..];
    }
  }

  function EncodeAll<T>(encode: T -> Bytes, body: seq<T>): seq<Bytes> {
    if body == [] then [] else [encode(body[0])] + EncodeAll(encode, body[1..])
  }

  /** Every renewed hash of the headers is in the store. */
  ghost predicate AllPresent(headers: seq<ExtrinsicHeader>, contents: Contents) {
    forall i :: 0 <= i < |headers| ==> headers[i].indexedHash == ZERO_HASH || headers[i].indexedHash in contents
  }

  /** The first header, in order, whose content is not in the store. */
  ghost predicate FirstMissing(headers: seq<ExtrinsicHeader>, contents: Contents, i: nat) {
    && i < |headers| && headers[i].indexedHash != ZERO_HASH && headers[i].indexedHash !in contents
    && AllPresent(headers[..i], contents)
  }

  function FindMissing(headers: seq<ExtrinsicHeader>, contents: Contents): Option<Hash> {
    if headers == [] then None
    else if headers[0].indexedHash != ZERO_HASH && headers[0].indexedHash !in contents then Some(headers[0].indexedHash)
    else FindMissing(headers[1..], contents)
  }

  lemma {:induction false} FindMissingExact(headers: seq<ExtrinsicHeader>, contents: Contents) returns (i: nat)
    ensures FindMissing(headers, contents) == None <==> AllPresent(headers, contents)
    ensures FindMissing(headers, contents).Some? ==>
              FirstMissing(headers, contents, i) && FindMissing(headers, contents).value == headers[i].indexedHash
    decreases |headers|
  {
    i := 0;
    if headers != [] {
      var k := FindMissingExact(headers[1..], contents);
      PresentParts(headers[0], headers[1..], contents);
      assert headers == [headers[0]] + headers[1..];
      if (headers[0].indexedHash == ZERO_HASH || headers[0].indexedHash in contents) && FindMissing(headers[1..], contents).Some? {
        i := k + 1;
        PresentParts(headers[0], headers[1..][..k], contents);
        assert headers[..i] == [headers[0]] + headers[1..][..k];
      }
    }
  }

  lemma {:induction false} ReadBackAll<T(!new)>(encode: T -> Bytes, decoder: Decoder<T>, hash: Bytes -> Hash, body: seq<T>, index: nat,
                                inserts: map<nat, (Hash, nat)>, renewals: map<nat, Hash>, contents: Contents)
    requires SelfDelimiting(encode, decoder) && ContentHash(hash) && Addressed(hash, contents)
    requires var ops := SplitAll(EncodeAll(encode, body), index, inserts, renewals).1;
             HashesRight(hash, ops) && forall i :: 0 <= i < |ops| && ops[i].StoreContent? ==> ops[i].hash in contents
    ensures var headers := SplitAll(EncodeAll(encode, body), index, inserts, renewals).0;
            var missing := FindMissing(headers, contents);
            ReadBody(decoder, headers, contents) == if missing.None? then Ok(body) else Err(MissingIndexed(missing.value))
    decreases |body|
  {
    if body != [] {
      var encoded, tail := EncodeAll(encode, body), EncodeAll(encode, body[1..]);
      assert encoded[0] == encode(body[0]) && encoded[1..] == tail;
      var (header, ops) := Split(encode(body[0]), index, inserts, renewals);
      var (headers, rest) := SplitAll(tail, index + 1, inserts, renewals);
      assert SplitAll(encoded, index, inserts, renewals) == ([header] + headers, ops + rest);
      hide SelfDelimiting, ContentHash, Addressed, Split, SplitAll, EncodeAll, ReadExtrinsic, ReadBody, FindMissing, Backed, HashesRight;
      SplitOps(hash, ops, rest, contents);
      SplitBacked(hash, encode(body[0]), index, inserts, renewals, contents);
      ReadBacked(encode, decoder, header, body[0], contents);
      ReadBackAll(encode, decoder, hash, body[1..], index + 1, inserts, renewals, contents);
      ReadFirst(decoder, header, headers, contents);
      assert body == [body[0]] + body[1..];
    }
  }

  lemma ReadFirst<T(!new)>(decoder: Decoder<T>, header: ExtrinsicHeader, headers: seq<ExtrinsicHeader>, contents: Contents)
    ensures var first, rest := ReadExtrinsic(decoder, header, contents), ReadBody(decoder, headers, contents);
            ReadBody(decoder, [header] + headers, contents) ==
              if first.Err? then Err(first.error) else if rest.Err? then Err(rest.error) else Ok([first.value] + rest.value)
    ensures FindMissing([header] + headers, contents) ==
              if header.indexedHash != ZERO_HASH && header.indexedHash !in contents then Some(header.indexedHash)
              else FindMissing(headers, contents)
  {
    hide ReadExtrinsic;
    assert ([header] + headers)[1..] == headers;
  }

  lemma PresentParts(header: ExtrinsicHeader, headers: seq<ExtrinsicHeader>, contents: Contents)
    ensures AllPresent([header] + headers, contents) <==>
              (header.indexedHash == ZERO_HASH || header.indexedHash in contents) && AllPresent(headers, contents)
  {
    var all := [header] + headers;
    assert forall i :: 0 <= i < |headers| ==> headers[i] == all[i + 1];
    assert all[0] == header;
  }

  lemma SplitOps(hash: Bytes -> Hash, ops: seq<StoreOp>, rest: seq<StoreOp>, contents: Contents)
    requires var all := ops + rest;
             HashesRight(hash, all) && forall i :: 0 <= i < |all| && all[i].StoreContent? ==> all[i].hash in contents
    ensures HashesRight(hash, ops) && HashesRight(hash, rest)
    ensures forall i :: 0 <= i < |ops| && ops[i].StoreContent? ==> ops[i].hash in contents
    ensures forall i :: 0 <= i < |rest| && rest[i].StoreContent? ==> rest[i].hash in contents
  {
    var all := ops + rest;
    assert forall i :: 0 <= i < |ops| ==> ops[i] == all[i];
    assert forall i :: 0 <= i < |rest| ==> rest[i] == all[|ops| + i];
  }

  // ---- In terms of the operations ----------------------------------------

  /** The operations split the content of an insertion off extrinsic `j`. */
  predicate SplitsOff(body: seq<Bytes>, ops: seq<IndexOp>, j: nat) {
    var i := j % U32_RANGE;
    j < |body| && i !in Renewals(ops) && i in Inserts(ops) && Inserts(ops)[i].1 <= |body[j]|
  }

  /** Every insertion names the content hash of what it splits off. */
  ghost predicate InsertionsRight(hash: Bytes -> Hash, body: seq<Bytes>, ops: seq<IndexOp>) {
    forall j: nat :: SplitsOff(body, ops, j) ==>
      var (h, size) := Inserts(ops)[j % U32_RANGE];
      hash(body[j][|body[j]| - size..]) == h
  }

  ghost predicate InsertedBy(body: seq<Bytes>, ops: seq<IndexOp>, h: Hash) {
    exists j: nat :: SplitsOff(body, ops, j) && Inserts(ops)[j % U32_RANGE].0 == h
  }

  /** Extrinsic `j` renews content that is neither in the store nor inserted by this body. */
  ghost predicate RenewsMissing(body: seq<Bytes>, ops: seq<IndexOp>, contents: Contents, j: nat) {
    var i := j % U32_RANGE;
    j < |body| && i in Renewals(ops) &&
    var h := Renewals(ops)[i];
    h != ZERO_HASH && h !in contents && !InsertedBy(body, ops, h)
  }

  ghost predicate FromExtrinsic(body: seq<Bytes>, index: nat, inserts: map<nat, (Hash, nat)>, renewals: map<nat, Hash>, op: StoreOp, j: nat) {
    j < |body| && op in Split(body[j], index + j, inserts, renewals).1
  }

  lemma {:induction false} SplitAllShape(body: seq<Bytes>, index: nat, inserts: map<nat, (Hash, nat)>, renewals: map<nat, Hash>)
    ensures var (headers, changes) := SplitAll(body, index, inserts, renewals);
            && |headers| == |body|
            && (forall j :: 0 <= j < |body| ==> headers[j] == Split(body[j], index + j, inserts, renewals).0)
            && (forall op :: op in changes <==> exists j: nat :: FromExtrinsic(body, index, inserts, renewals, op, j))
    decreases |body|
  {
    if body != [] {
      hide Split;
      var rest, next := body[1..], index + 1;
      SplitAllShape(rest, next, inserts, renewals);
      var (headers, changes) := SplitAll(body, index, inserts, renewals);
      forall j | 0 <= j < |body| ensures headers[j] == Split(body[j], index + j, inserts, renewals).0 {
        if j > 0 { assert rest[j - 1] == body[j] && next + (j - 1) == index + j; }
      }
      forall op ensures op in changes <==> exists j: nat :: FromExtrinsic(body, index, inserts, renewals, op, j) {
        OpInRest(body, index, rest, next, inserts, renewals, op);
      }
    }
  }

  lemma OpInRest(body: seq<Bytes>, index: nat, rest: seq<Bytes>, next: nat, inserts: map<nat, (Hash, nat)>, renewals: map<nat, Hash>, op: StoreOp)
    requires body != [] && rest == body[1..] && next == index + 1
    ensures (exists j: nat :: FromExtrinsic(body, index, inserts, renewals, op, j)) <==>
              || op in Split(body[0], index, inserts, renewals).1
              || exists j: nat :: FromExtrinsic(rest, next, inserts, renewals, op, j)
  {
    hide Split;
    if j: nat :| FromExtrinsic(body, index, inserts, renewals, op, j) {
      if j > 0 {
        assert rest[j - 1] == body[j] && next + (j - 1) == index + j;
        assert FromExtrinsic(rest, next, inserts, renewals, op, j - 1);
      }
    }
    if j: nat :| FromExtrinsic(rest, next, inserts, renewals, op, j) {
      assert rest[j] == body[j + 1] && next + j == index + (j + 1);
      assert FromExtrinsic(body, index, inserts, renewals, op, j + 1);
    }
    if op in Split(body[0], index, inserts, renewals).1 {
      assert FromExtrinsic(body, index, inserts, renewals, op, 0);
    }
  }

  /** What is stored comes from exactly the insertions that split something off. */
  lemma StoredIs(body: seq<Bytes>, ops: seq<IndexOp>, op: StoreOp, j: nat)
    ensures FromExtrinsic(body, 0, Inserts(ops), Renewals(ops), op, j) && op.StoreContent? <==>
              SplitsOff(body, ops, j) &&
              var (h, size) := Inserts(ops)[j % U32_RANGE];
              op == StoreContent(h, body[j][|body[j]| - size..])
  {
    hide Inserts, Renewals;
  }

  predicate Stores(ops: seq<StoreOp>, op: StoreOp, h: Hash) {
    op in ops && op.StoreContent? && op.hash == h
  }

  lemma {:induction false} ApplyAllHolds(contents: Contents, ops: seq<StoreOp>, h: Hash)
    ensures h in ApplyAll(contents, ops) <==> h in contents || exists op :: Stores(ops, op, h)
    decreases |ops|
  {
    if ops != [] {
      assert ops == [ops[0]] + ops[1..];
      var next := ApplyStore(contents, ops[0]);
      ApplyAllHolds(next, ops[1..], h);
      assert Stores(ops, ops[0], h) ==> h in next;
      if op :| Stores(ops[1..], op, h) { assert Stores(ops, op, h); }
      if op :| Stores(ops, op, h) { assert op == ops[0] || Stores(ops[1..], op, h); }
    }
  }

  /** After the body's changes the store holds what it held and what the body inserts. */
  lemma HeldAfter(body: seq<Bytes>, ops: seq<IndexOp>, contents: Contents, h: Hash)
    ensures var changes := SplitAll(body, 0, Inserts(ops), Renewals(ops)).1;
            h in ApplyAll(contents, changes) <==> h in contents || InsertedBy(body, ops, h)
  {
    hide Inserts, Renewals, SplitAll, ApplyAll, FromExtrinsic;
    var changes := SplitAll(body, 0, Inserts(ops), Renewals(ops)).1;
    ApplyAllHolds(contents, changes, h);
    SplitAllShape(body, 0, Inserts(ops), Renewals(ops));
    if op :| Stores(changes, op, h) {
      var j: nat :| FromExtrinsic(body, 0, Inserts(ops), Renewals(ops), op, j);
      StoredIs(body, ops, op, j);
    }
    if InsertedBy(body, ops, h) {
      var j: nat :| SplitsOff(body, ops, j) && Inserts(ops)[j % U32_RANGE].0 == h;
      var op := InsertedOp(body, ops, j);
      StoredIs(body, ops, op, j);
      assert Stores(changes, op, h);
    }
  }

  function InsertedOp(body: seq<Bytes>, ops: seq<IndexOp>, j: nat): StoreOp
    requires SplitsOff(body, ops, j)
  {
    StoreContent(Inserts(ops)[j % U32_RANGE].0, body[j][|body[j]| - Inserts(ops)[j % U32_RANGE].1..])
  }

  lemma StoredHashesRight(hash: Bytes -> Hash, body: seq<Bytes>, ops: seq<IndexOp>)
    requires InsertionsRight(hash, body, ops)
    ensures HashesRight(hash, SplitAll(body, 0, Inserts(ops), Renewals(ops)).1)
  {
    hide Inserts, Renewals, SplitAll, FromExtrinsic;
    var changes := SplitAll(body, 0, Inserts(ops), Renewals(ops)).1;
    SplitAllShape(body, 0, Inserts(ops), Renewals(ops));
    forall i | 0 <= i < |changes| && changes[i].StoreContent? ensures hash(changes[i].content) == changes[i].hash {
      var op := changes[i];
      assert op in changes;
      var j: nat :| FromExtrinsic(body, 0, Inserts(ops), Renewals(ops), op, j);
      StoredIs(body, ops, op, j);
    }
  }

  /** A header lacks its content exactly when its extrinsic renews what is missing. */
  lemma HeaderLacks(body: seq<Bytes>, ops: seq<IndexOp>, contents: Contents, j: nat)
    requires j < |body|
    ensures var (headers, changes) := SplitAll(body, 0, Inserts(ops), Renewals(ops));
            && |headers| == |body|
            && (headers[j].indexedHash != ZERO_HASH && headers[j].indexedHash !in ApplyAll(contents, changes) <==>
                  RenewsMissing(body, ops, contents, j))
            && (RenewsMissing(body, ops, contents, j) ==> headers[j].indexedHash == Renewals(ops)[j % U32_RANGE])
  {
    hide Inserts, Renewals, SplitAll, ApplyAll;
    SplitAllShape(body, 0, Inserts(ops), Renewals(ops));
    var header := Split(body[j], j, Inserts(ops), Renewals(ops)).0;
    HeldAfter(body, ops, contents, header.indexedHash);
    assert SplitsOff(body, ops, j) ==> InsertedBy(body, ops, header.indexedHash);
    hide InsertedBy;
  }

  /**
   * A body split by any index operations reads back as it was, exactly when every content it renews
   * is in the store before or inserted by the body itself; otherwise the first missing one, in the
   * order of the extrinsics, is reported.
   */
  lemma BodyRoundTrip<T(!new)>(encode: T -> Bytes, decoder: Decoder<T>, hash: Bytes -> Hash, body: seq<T>, ops: seq<IndexOp>, contents: Contents)
    requires SelfDelimiting(encode, decoder) && ContentHash(hash) && Addressed(hash, contents)
    requires InsertionsRight(hash, EncodeAll(encode, body), ops)
    ensures var encoded := EncodeAll(encode, body);
            var (headers, changes) := SplitAll(encoded, 0, Inserts(ops), Renewals(ops));
            var read := ReadBody(decoder, headers, ApplyAll(contents, changes));
            && (read == Ok(body) <==> forall j: nat :: !RenewsMissing(encoded, ops, contents, j))
            && (forall j: nat :: RenewsMissing(encoded, ops, contents, j) && (forall k: nat :: k < j ==> !RenewsMissing(encoded, ops, contents, k)) ==>
                  read == Err(MissingIndexed(Renewals(ops)[j % U32_RANGE])))
  {
    hide SplitAll, ApplyAll, ReadBody, FindMissing, EncodeAll, Inserts, Renewals, SelfDelimiting, ContentHash, Addressed, HashesRight, InsertionsRight, RenewsMissing;
    var encoded := EncodeAll(encode, body);
    var (headers, changes) := SplitAll(encoded, 0, Inserts(ops), Renewals(ops));
    var after := ApplyAll(contents, changes);
    StoredHashesRight(hash, encoded, ops);
    ApplyAllKeeps(hash, contents, changes);
    ReadBackAll(encode, decoder, hash, body, 0, Inserts(ops), Renewals(ops), after);
    var i := FindMissingExact(headers, after);
    FirstIsMissing(encoded, ops, contents, i);
  }

  lemma FirstIsMissing(body: seq<Bytes>, ops: seq<IndexOp>, contents: Contents, i: nat)
    ensures var (headers, changes) := SplitAll(body, 0, Inserts(ops), Renewals(ops));
            var after := ApplyAll(contents, changes);
            && (AllPresent(headers, after) <==> forall j: nat :: !RenewsMissing(body, ops, contents, j))
            && (FirstMissing(headers, after, i) ==>
                  && RenewsMissing(body, ops, contents, i) && headers[i].indexedHash == Renewals(ops)[i % U32_RANGE]
                  && forall j: nat :: j < i ==> !RenewsMissing(body, ops, contents, j))
  {
    hide SplitAll, ApplyAll, Inserts, Renewals, InsertedBy;
    var (headers, changes) := SplitAll(body, 0, Inserts(ops), Renewals(ops));
    SplitAllShape(body, 0, Inserts(ops), Renewals(ops));
    forall j: nat | j < |body|
      ensures headers[j].indexedHash != ZERO_HASH && headers[j].indexedHash !in ApplyAll(contents, changes) <==>
                RenewsMissing(body, ops, contents, j)
    {
      HeaderLacks(body, ops, contents, j);
    }
    if FirstMissing(headers, ApplyAll(contents, changes), i) {
      HeaderLacks(body, ops, contents, i);
      assert forall j :: 0 <= j < i ==> headers[..i][j] == headers[j];
    }
  }

  // ---- References --------------------------------------------------------

  ghost predicate InsertsAt(body: seq<Bytes>, ops: seq<IndexOp>, h: Hash, j: nat) {
    SplitsOff(body, ops, j) && Inserts(ops)[j % U32_RANGE].0 == h
  }

  /**
   * Extrinsic `j` adds a reference to `h`: it splits off an insertion under it, or renews it when it
   * is there by then, from before or by an earlier insertion.
   */
  ghost predicate Refers(body: seq<Bytes>, ops: seq<IndexOp>, contents: Contents, h: Hash, j: nat) {
    || InsertsAt(body, ops, h, j)
    || (&& j < |body| && j % U32_RANGE in Renewals(ops) && Renewals(ops)[j % U32_RANGE] == h
        && (h in contents || exists i: nat :: i < j && InsertsAt(body, ops, h, i)))
  }

  /** How many of the first `n` extrinsics add a reference to `h`. */
  ghost function References(body: seq<Bytes>, ops: seq<IndexOp>, contents: Contents, h: Hash, n: nat): nat {
    if n == 0 then 0
    else References(body, ops, contents, h, n - 1) + if Refers(body, ops, contents, h, n - 1) then 1 else 0
  }

  /** What extrinsic `j` inserts under `h` is the first thing inserted under it. */
  ghost predicate FirstInsert(body: seq<Bytes>, ops: seq<IndexOp>, h: Hash, j: nat) {
    InsertsAt(body, ops, h, j) && forall i: nat :: i < j ==> !InsertsAt(body, ops, h, i)
  }

  function CountOf(contents: Contents, h: Hash): nat {
    if h in contents then contents[h].1 else 0
  }

  lemma {:induction false} SplitAllLast(body: seq<Bytes>, index: nat, inserts: map<nat, (Hash, nat)>, renewals: map<nat, Hash>)
    requires body != []
    ensures var n := |body| - 1;
            SplitAll(body, index, inserts, renewals).1 ==
              SplitAll(body[..n], index, inserts, renewals).1 + Split(body[n], index + n, inserts, renewals).1
    decreases |body|
  {
    hide Split;
    var n := |body| - 1;
    if n > 0 {
      var rest := body[1..];
      SplitAllLast(rest, index + 1, inserts, renewals);
      assert rest[..n - 1] == body[..n][1..] && rest[n - 1] == body[n] && index + 1 + (n - 1) == index + n;
      var first := Split(body[0], index, inserts, renewals).1;
      var middle := SplitAll(rest[..n - 1], index + 1, inserts, renewals).1;
      var last := Split(body[n], index + n, inserts, renewals).1;
      assert first + (middle + last) == first + middle + last;
    } else {
      assert body[..0] == [] && body[1..] == [];
      var first := Split(body[0], index, inserts, renewals).1;
      assert first + [] == first && [] + first == first;
    }
  }

  lemma {:induction false} ApplyAllLast(contents: Contents, ops: seq<StoreOp>, more: seq<StoreOp>)
    ensures ApplyAll(contents, ops + more) == ApplyAll(ApplyAll(contents, ops), more)
    decreases |ops|
  {
    if ops == [] {
      assert ops + more == more;
    } else {
      assert (ops + more)[1..] == ops[1..] + more;
      ApplyAllLast(ApplyStore(contents, ops[0]), ops[1..], more);
    }
  }

  /** One extrinsic's change to the store: a reference to what it inserts or renews, new content if there was none. */
  lemma OneExtrinsic(body: seq<Bytes>, ops: seq<IndexOp>, store: Contents, h: Hash, j: nat)
    requires j < |body|
    ensures var after := ApplyAll(store, Split(body[j], j, Inserts(ops), Renewals(ops)).1);
            var renews := j % U32_RANGE in Renewals(ops) && Renewals(ops)[j % U32_RANGE] == h;
            && (h in after <==> h in store || InsertsAt(body, ops, h, j))
            && CountOf(after, h) == CountOf(store, h) + (if InsertsAt(body, ops, h, j) || (renews && h in store) then 1 else 0)
            && (h in store ==> after[h].0 == store[h].0)
            && (h !in store && InsertsAt(body, ops, h, j) ==>
                  after[h].0 == body[j][|body[j]| - Inserts(ops)[j % U32_RANGE].1..])
  {
    hide Inserts, Renewals;
    var changes := Split(body[j], j, Inserts(ops), Renewals(ops)).1;
    if changes != [] {
      assert |changes| == 1 && changes[1..] == [];
      assert ApplyAll(store, changes) == ApplyStore(store, changes[0]);
    }
  }

  /** The store after the first `n` extrinsics of a body. */
  ghost function StoreAfter(body: seq<Bytes>, ops: seq<IndexOp>, contents: Contents, n: nat): Contents
    requires n <= |body|
  {
    ApplyAll(contents, SplitAll(body[..n], 0, Inserts(ops), Renewals(ops)).1)
  }

  lemma StoreAfterNext(body: seq<Bytes>, ops: seq<IndexOp>, contents: Contents, n: nat)
    requires n < |body|
    ensures StoreAfter(body, ops, contents, n + 1) ==
              ApplyAll(StoreAfter(body, ops, contents, n), Split(body[n], n, Inserts(ops), Renewals(ops)).1)
  {
    hide Inserts, Renewals, Split, SplitAll, ApplyAll;
    var part := body[..n + 1];
    SplitAllLast(part, 0, Inserts(ops), Renewals(ops));
    assert part[..n] == body[..n] && part[n] == body[n];
    ApplyAllLast(contents, SplitAll(body[..n], 0, Inserts(ops), Renewals(ops)).1, Split(body[n], n, Inserts(ops), Renewals(ops)).1);
  }

  lemma {:induction false} StoreCounts(body: seq<Bytes>, ops: seq<IndexOp>, contents: Contents, h: Hash, n: nat)
    requires n <= |body|
    ensures var after := StoreAfter(body, ops, contents, n);
            && (h in after <==> h in contents || exists j: nat :: j < n && InsertsAt(body, ops, h, j))
            && CountOf(after, h) == CountOf(contents, h) + References(body, ops, contents, h, n)
            && (h in contents ==> after[h].0 == contents[h].0)
            && (h !in contents ==> forall j: nat :: j < n && FirstInsert(body, ops, h, j) ==>
                  after[h].0 == body[j][|body[j]| - Inserts(ops)[j % U32_RANGE].1..])
  {
    hide InsertsAt, Split, ApplyAll, SplitAll, Inserts, Renewals;
    if n == 0 {
      NothingStored(body, ops, contents);
    } else {
      StoreCounts(body, ops, contents, h, n - 1);
      StoreAfterNext(body, ops, contents, n - 1);
      OneExtrinsic(body, ops, StoreAfter(body, ops, contents, n - 1), h, n - 1);
    }
  }

  lemma NothingStored(body: seq<Bytes>, ops: seq<IndexOp>, contents: Contents)
    ensures StoreAfter(body, ops, contents, 0) == contents
  {
    assert body[..0] == [];
  }

  /**
   * Reference counting. After a body's changes every content has its old count plus one for each
   * extrinsic that refers to it; what was in the store keeps its bytes; and a new hash has the
   * bytes first inserted under it.
   */
  lemma ReferencesCounted(body: seq<Bytes>, ops: seq<IndexOp>, contents: Contents, h: Hash)
    ensures var after := ApplyAll(contents, SplitAll(body, 0, Inserts(ops), Renewals(ops)).1);
            && (h in after <==> h in contents || InsertedBy(body, ops, h))
            && CountOf(after, h) == CountOf(contents, h) + References(body, ops, contents, h, |body|)
            && (h in contents ==> after[h].0 == contents[h].0)
            && (h !in contents ==> forall j: nat :: FirstInsert(body, ops, h, j) ==>
                  after[h].0 == body[j][|body[j]| - Inserts(ops)[j % U32_RANGE].1..])
  {
    hide ApplyAll, SplitAll, Inserts, Renewals;
    assert body[..|body|] == body;
    HeldAfter(body, ops, contents, h);
    StoreCounts(body, ops, contents, h, |body|);
  }

  // ---- The loop over a body ----------------------------------------------

  method ApplyIndexOps(body: seq<Bytes>, ops: seq<IndexOp>) returns (headers: seq<ExtrinsicHeader>, changes: seq<StoreOp>)
    ensures (headers, changes) == SplitAll(body, 0, Inserts(ops), Renewals(ops))
  {
    var inserts: map<nat, (Hash, nat)> := map[];
    var renewals: map<nat, Hash> := map[];
    for i := 0 to |ops|
      invariant inserts == Inserts(ops[..i]) && renewals == Renewals(ops[..i])
    {
      assert ops[..i + 1][..i] == ops[..i];
      match ops[i] {
        case Insert(extrinsic, hash, size) => inserts := inserts[extrinsic := (hash, size)];
        case Renew(extrinsic, hash) => renewals := renewals[extrinsic := hash];
      }
    }
    assert ops[..|ops|] == ops;
    headers, changes := [], [];
    ghost var goal := SplitAll(body, 0, inserts, renewals);
    assert body[0..] == body;
    assert [] + goal.0 == goal.0 && [] + goal.1 == goal.1;
    for i := 0 to |body|
      invariant headers + SplitAll(body[i..], i, inserts, renewals).0 == goal.0
      invariant changes + SplitAll(body[i..], i, inserts, renewals).1 == goal.1
    {
      hide Split, Inserts, Renewals;
      assert body[i..][1..] == body[i + 1..];
      var (header, more) := Split(body[i], i, inserts, renewals);
      ghost var (restHeaders, restOps) := SplitAll(body[i + 1..], i + 1, inserts, renewals);
      assert headers + ([header] + restHeaders) == headers + [header] + restHeaders;
      assert changes + (more + restOps) == changes + more + restOps;
      headers, changes := headers + [header], changes + more;
    }
    assert headers + [] == headers && changes + [] == changes;
  }
}
