/** The file-list messages of gnl_message_snb.c and gnl_message_nq.c. */
module Message {
  import opened Wrappers
  import opened MinHeap
  import opened HuffmanTree

  const MAX_DIGITS := 10
  const TEN_DIGITS := 10_000_000_000

  /** One record: a file name and the bytes of the file. */
  datatype Record = Record(name: seq<Byte>, bytes: seq<Byte>)

  // ---------- numbers ----------

  function Pow10(k: nat): (p: nat)
    ensures p > 0
  {
    if k == 0 then 1 else 10 * Pow10(k - 1)
  }

  /** The last `k` decimal digits of a number. */
  function Digits(n: nat, k: nat): (s: seq<Byte>)
    ensures |s| == k
  {
    if k == 0 then [] else Digits(n / 10, k - 1) + [48 + n % 10]
  }

  function Decimal(n: nat): seq<Byte> {
    if n < 10 then [48 + n] else Decimal(n / 10) + [48 + n % 10]
  }

  /** A number as `printf` prints it with a minimal width of ten digits, padded with zeros. */
  function Padded(n: nat): seq<Byte> {
    if n < TEN_DIGITS then Digits(n, MAX_DIGITS) else Decimal(n)
  }

  predicate IsDigit(b: Byte) {
    48 <= b <= 57
  }

  function DigitValue(b: Byte): nat
    requires IsDigit(b)
  {
    b - 48
  }

  /** The value of the leading digits, read after a prefix of value `acc`. */
  function ReadDigits(s: seq<Byte>, acc: nat): nat {
    if s == [] || !IsDigit(s[0]) then acc else ReadDigits(s[1..], 10 * acc + DigitValue(s[0]))
  }

  predicate IsBlank(b: Byte) {
    b == 32 || 9 <= b <= 13
  }

  function SkipBlanks(s: seq<Byte>): seq<Byte> {
    if s != [] && IsBlank(s[0]) then SkipBlanks(s[1..]) else s
  }

  function Take(s: seq<Byte>, n: nat): seq<Byte> {
    if |s| <= n then s else s[..n]
  }

  /**
   * Reads a number of at most ten characters, as `sscanf` with that width does, and `strtol` on ten
   * characters: it skips blanks, and takes a sign and digits. It fails without digits.
   */
  function ReadNumber(s: seq<Byte>): Option<int> {
    var t := Take(SkipBlanks(s), MAX_DIGITS);
    var digits := if t != [] && (t[0] == 43 || t[0] == 45) then t[1..] else t;
    if digits == [] || !IsDigit(digits[0]) then None
    else Some(if t[0] == 45 then 0 - ReadDigits(digits, 0) else ReadDigits(digits, 0))
  }

  /** The conversion of a `long` to an `int`. */
  function ToInt(n: int): (r: int)
    ensures -INT_MAX - 1 <= r <= INT_MAX && (-INT_MAX - 1 <= n <= INT_MAX ==> r == n)
  {
    var m := n % 0x1_0000_0000;
    if m > INT_MAX then m - 0x1_0000_0000 else m
  }

  lemma {:induction false} ReadOneMore(s: seq<Byte>, d: Byte, acc: nat)
    requires IsDigit(d) && forall b :: b in s ==> IsDigit(b)
    ensures ReadDigits(s + [d], acc) == 10 * ReadDigits(s, acc) + DigitValue(d)
  {
    if s == [] {
      assert [] + [d] == [d];
      assert ReadDigits([d], acc) == ReadDigits([d][1..], 10 * acc + DigitValue(d));
    } else {
      assert (s + [d])[1..] == s[1..] + [d];
      assert IsDigit(s[0]);
      ReadOneMore(s[1..], d, 10 * acc + DigitValue(s[0]));
    }
  }

  lemma {:induction false} DigitsAreDigits(n: nat, k: nat)
    ensures forall b :: b in Digits(n, k) ==> IsDigit(b)
  {
    if k > 0 {
      DigitsAreDigits(n / 10, k - 1);
    }
  }

  lemma {:induction false} DigitsRead(n: nat, k: nat)
    requires n < Pow10(k)
    ensures ReadDigits(Digits(n, k), 0) == n
  {
    if k > 0 {
      DigitsRead(n / 10, k - 1);
      DigitsAreDigits(n / 10, k - 1);
      ReadOneMore(Digits(n / 10, k - 1), 48 + n % 10, 0);
    }
  }

  /** A number of ten digits is read back, whatever follows. */
  lemma PaddedRead(n: nat, rest: seq<Byte>)
    requires n < TEN_DIGITS
    ensures |Padded(n)| == MAX_DIGITS && ReadNumber(Padded(n) + rest) == Some(n)
  {
    assert Pow10(5) == 10 * Pow10(4) == 100 * Pow10(3) == 100_000;
    assert Pow10(10) == 10 * Pow10(9) == 100 * Pow10(8) == 1000 * Pow10(7) == 10000 * Pow10(6) == 100000 * Pow10(5);
    DigitsRead(n, MAX_DIGITS);
    DigitsAreDigits(n, MAX_DIGITS);
    var s := Padded(n) + rest;
    assert s[0] == Digits(n, MAX_DIGITS)[0] && Digits(n, MAX_DIGITS)[0] in Digits(n, MAX_DIGITS);
    assert SkipBlanks(s) == s && Take(s, MAX_DIGITS) == Digits(n, MAX_DIGITS);
  }

  // ---------- records ----------

  /** The part of a C string that counts. */
  function UpToNul(s: seq<Byte>): seq<Byte> {
    if s == [] || s[0] == 0 then [] else [s[0]] + UpToNul(s[1..])
  }

  predicate NulFree(s: seq<Byte>) {
    forall b :: b in s ==> b != 0
  }

  function RecordSize(r: Record): nat {
    MAX_DIGITS + |r.name| + MAX_DIGITS + |r.bytes| + 1
  }

  /** A record the format can carry: its size is an `int`, so both lengths have at most ten digits. */
  predicate Fits(r: Record) {
    NulFree(r.name) && RecordSize(r) <= INT_MAX
  }

  /** The two lengths, each before its contents, with a NUL after the second; too long a head is cut off. */
  function RecordToString(r: Record): seq<Byte> {
    Take(Padded(|r.name|) + r.name + Padded(|r.bytes|), MAX_DIGITS + |r.name| + MAX_DIGITS) + [0] + r.bytes
  }

  /** Fails without digits, for a negative length, and where the source reads past the end of the message. */
  function RecordFromString(message: seq<Byte>): Option<Record> {
    var n := ReadNumber(message);
    if n.None? || n.value < 0 || |message| < MAX_DIGITS + n.value then None
    else
      var name := message[MAX_DIGITS..MAX_DIGITS + n.value];
      var rest := message[MAX_DIGITS + n.value..];
      var count := ReadNumber(Take(rest, MAX_DIGITS));
      if count.None? || count.value < 0 || |rest| < MAX_DIGITS + 1 + count.value then None
      else Some(Record(UpToNul(name), rest[MAX_DIGITS + 1..MAX_DIGITS + 1 + count.value]))
  }

  lemma {:induction false} NulFreeStays(s: seq<Byte>)
    requires NulFree(s)
    ensures UpToNul(s) == s
  {
    if s != [] {
      assert s[0] in s;
      forall b | b in s[1..]
        ensures b != 0
      {
        assert b in s;
      }
      NulFreeStays(s[1..]);
    }
  }

  lemma RecordLayout(a: seq<Byte>, name: seq<Byte>, b: seq<Byte>, bytes: seq<Byte>, rest: seq<Byte>, s: seq<Byte>)
    requires |a| == |b| == MAX_DIGITS
    requires s == Take(a + name + b, MAX_DIGITS + |name| + MAX_DIGITS) + [0] + bytes + rest
    ensures s == a + (name + b + ([0] + bytes + rest))
    ensures |s| == MAX_DIGITS + |name| + MAX_DIGITS + |bytes| + 1 + |rest|
    ensures s[MAX_DIGITS..MAX_DIGITS + |name|] == name
    ensures Take(s[MAX_DIGITS + |name|..], MAX_DIGITS) == b + []
    ensures s[MAX_DIGITS + |name|..][MAX_DIGITS + 1..MAX_DIGITS + 1 + |bytes|] == bytes
  {
    assert s[MAX_DIGITS + |name|..] == b + ([0] + bytes + rest);
  }

  /** A record is read back from its string, whatever follows, and the string has the record's size. */
  lemma RecordRoundTrip(r: Record, rest: seq<Byte>)
    requires Fits(r)
    ensures RecordFromString(RecordToString(r) + rest) == Some(r)
    ensures |RecordToString(r)| == RecordSize(r)
  {
    hide Padded, ReadNumber, UpToNul, NulFree;
    var a, b := Padded(|r.name|), Padded(|r.bytes|);
    PaddedRead(|r.name|, r.name + b + ([0] + r.bytes + rest));
    PaddedRead(|r.bytes|, []);
    NulFreeStays(r.name);
    RecordLayout(a, r.name, b, r.bytes, rest, RecordToString(r) + rest);
  }

  lemma DivideTwice(n: nat, p: nat)
    requires p > 0
    ensures (n / 10) / p == n / (10 * p)
  {
    var q, r := (n / 10) / p, (n / 10) % p;
    assert n == 10 * (q * p + r) + n % 10;
    assert 10 * (q * p) == q * (10 * p);
    var rest := 10 * r + n % 10;
    assert n == q * (10 * p) + rest && 0 <= rest < 10 * p;
    QuotientIs(n, 10 * p, q, rest);
  }

  lemma QuotientIs(n: nat, d: nat, q: nat, r: nat)
    requires n == q * d + r && r < d
    ensures n / d == q
  {
    var k, m := n / d, n % d;
    assert n == k * d + m;
    assert (k - q) * d == r - m;
    AtLeast(k - q, d);
    AtLeast(q - k, d);
    assert (q - k) * d == -((k - q) * d);
  }

  lemma AtLeast(k: int, d: nat)
    ensures k > 0 ==> k * d >= d
  {
    if k > 0 {
      assert k * d == (k - 1) * d + d;
      assert (k - 1) * d >= 0;
    }
  }

  /** The most significant digit comes first. */
  lemma {:induction false} DigitAt(n: nat, k: nat, i: nat)
    requires i < k
    ensures Digits(n, k)[i] == 48 + n / Pow10(k - 1 - i) % 10
  {
    if i < k - 1 {
      DigitAt(n / 10, k - 1, i);
      DivideTwice(n, Pow10(k - 2 - i));
    }
  }

  /** Ten digits, the most significant first. */
  ghost predicate IsNumber(s: seq<Byte>, n: nat) {
    |s| == MAX_DIGITS && forall i :: 0 <= i < MAX_DIGITS ==> s[i] == 48 + n / Pow10(MAX_DIGITS - 1 - i) % 10
  }

  lemma PaddedIsNumber(n: nat)
    requires n < TEN_DIGITS
    ensures IsNumber(Padded(n), n)
  {
    forall i | 0 <= i < MAX_DIGITS
      ensures Padded(n)[i] == 48 + n / Pow10(MAX_DIGITS - 1 - i) % 10
    {
      DigitAt(n, MAX_DIGITS, i);
    }
  }

  /** The wire format of a record: length of the name, name, number of bytes, NUL, bytes. */
  lemma RecordFormat(r: Record)
    requires Fits(r)
    ensures var s, n := RecordToString(r), |r.name|;
            && |s| == 21 + n + |r.bytes|
            && IsNumber(s[..10], n) && s[10..10 + n] == r.name
            && IsNumber(s[10 + n..20 + n], |r.bytes|) && s[20 + n] == 0 && s[21 + n..] == r.bytes
  {
    hide Padded, IsNumber;
    PaddedIsNumber(|r.name|);
    PaddedIsNumber(|r.bytes|);
    PaddedRead(|r.name|, []);
    PaddedRead(|r.bytes|, []);
    var a, b := Padded(|r.name|), Padded(|r.bytes|);
    RecordParts(a, r.name, b, r.bytes, RecordToString(r));
  }

  lemma RecordParts(a: seq<Byte>, name: seq<Byte>, b: seq<Byte>, bytes: seq<Byte>, s: seq<Byte>)
    requires |a| == |b| == MAX_DIGITS
    requires s == Take(a + name + b, MAX_DIGITS + |name| + MAX_DIGITS) + [0] + bytes
    ensures var n := |name|;
            && |s| == 21 + n + |bytes| && s[..10] == a && s[10..10 + n] == name
            && s[10 + n..20 + n] == b && s[20 + n] == 0 && s[21 + n..] == bytes
  {
    assert s == a + name + b + [0] + bytes;
  }

  // ---------- lists of records ----------

  function AllToString(rs: seq<Record>): seq<Byte> {
    if rs == [] then [] else AllToString(rs[..|rs| - 1]) + RecordToString(rs[|rs| - 1])
  }

  function ListToString(number: nat, rs: seq<Record>): seq<Byte> {
    Padded(number) + AllToString(rs)
  }

  /** The records from position `offset` on, with the position after the last one. */
  function Decode(message: seq<Byte>, offset: nat, left: nat): Option<seq<Record>>
    decreases left
  {
    if left == 0 then Some([])
    else if offset > |message| then None
    else
      var r := RecordFromString(message[offset..]);
      if r.None? then None
      else
        var rs := Decode(message, offset + RecordSize(r.value), left - 1);
        if rs.None? then None else Some([r.value] + rs.value)
  }

  /** The number of records: an `int`, so it can be negative, and then there are none. */
  function ListNumber(message: seq<Byte>): Option<int> {
    var n := ReadNumber(Take(message, MAX_DIGITS));
    if n.None? then None else Some(ToInt(n.value))
  }

  function NonNegative(n: int): nat {
    if n < 0 then 0 else n
  }

  /** The records from position `offset` on, as far as they can be decoded. */
  function DecodedPart(message: seq<Byte>, offset: nat, left: nat): seq<Record>
    decreases left
  {
    if left == 0 || offset > |message| then []
    else
      var r := RecordFromString(message[offset..]);
      if r.None? then [] else [r.value] + DecodedPart(message, offset + RecordSize(r.value), left - 1)
  }

  lemma {:induction false} DecodedIsAll(message: seq<Byte>, offset: nat, left: nat)
    ensures Decode(message, offset, left).Some? ==>
      Decode(message, offset, left).value == DecodedPart(message, offset, left)
    ensures Decode(message, offset, left).Some? <==> |DecodedPart(message, offset, left)| == left
    ensures |DecodedPart(message, offset, left)| <= left
    decreases left
  {
    hide RecordFromString, RecordSize;
    if left > 0 && offset <= |message| {
      var r := RecordFromString(message[offset..]);
      if r.Some? {
        DecodedIsAll(message, offset + RecordSize(r.value), left - 1);
      }
    }
  }

  function ListFromString(message: seq<Byte>): Option<seq<Record>> {
    var n := ListNumber(message);
    if n.None? then None else Decode(message, MAX_DIGITS, NonNegative(n.value))
  }

  lemma {:induction false} FirstRecord(rs: seq<Record>)
    requires rs != []
    ensures AllToString(rs) == RecordToString(rs[0]) + AllToString(rs[1..])
  {
    hide RecordToString;
    var n := |rs| - 1;
    if n > 0 {
      FirstRecord(rs[..n]);
      assert rs[..n][1..] == rs[1..][..n - 1] && rs[1..][n - 1] == rs[n];
      var first, last := RecordToString(rs[0]), RecordToString(rs[n]);
      var middle := AllToString(rs[1..][..n - 1]);
      assert (first + middle) + last == first + (middle + last);
    } else {
      assert rs[..0] == [] && rs[1..] == [];
    }
  }

  lemma NoRecords(head: seq<Byte>)
    ensures head + AllToString([]) == head
  {
  }

  lemma {:induction false} DecodeAll(head: seq<Byte>, rs: seq<Record>)
    requires forall i :: 0 <= i < |rs| ==> Fits(rs[i])
    ensures Decode(head + AllToString(rs), |head|, |rs|) == Some(rs)
    decreases |rs|
  {
    hide RecordToString, RecordFromString, Fits, AllToString;
    NoRecords(head);
    if rs != [] {
      var first, rest := RecordToString(rs[0]), AllToString(rs[1..]);
      var message := head + AllToString(rs);
      FirstRecord(rs);
      RecordRoundTrip(rs[0], rest);
      assert message[|head|..] == first + rest;
      assert message == (head + first) + rest;
      DecodeAll(head + first, rs[1..]);
      assert [rs[0]] + rs[1..] == rs;
    }
  }

  /** Decoding an encoded file list gives back its records, in order. */
  lemma ListRoundTrip(rs: seq<Record>)
    requires |ListToString(|rs|, rs)| <= INT_MAX && |rs| <= INT_MAX && forall i :: 0 <= i < |rs| ==> Fits(rs[i])
    ensures ListFromString(ListToString(|rs|, rs)) == Some(rs)
  {
    PaddedRead(|rs|, []);
    var message := ListToString(|rs|, rs);
    assert Take(message, MAX_DIGITS) == Padded(|rs|) + [];
    DecodeAll(Padded(|rs|), rs);
  }

  /** The records of a message, as far as they can be decoded. */
  function ListPart(message: seq<Byte>): seq<Record> {
    var n := ListNumber(message);
    if n.None? then [] else DecodedPart(message, MAX_DIGITS, NonNegative(n.value))
  }

  lemma ListIsPart(message: seq<Byte>)
    ensures ListFromString(message).Some? ==> ListFromString(message).value == ListPart(message)
    ensures ListNumber(message).None? ==> ListFromString(message).None?
    ensures ListNumber(message).Some? ==>
      (ListFromString(message).Some? <==> |ListPart(message)| == NonNegative(ListNumber(message).value))
  {
    hide RecordFromString, ReadNumber;
    if ListNumber(message).Some? {
      DecodedIsAll(message, MAX_DIGITS, NonNegative(ListNumber(message).value));
    }
  }

  lemma PartStep(message: seq<Byte>, offset: nat, left: nat)
    ensures left == 0 || offset > |message| || RecordFromString(message[offset..]).None? ==>
      DecodedPart(message, offset, left) == []
    ensures left > 0 && offset <= |message| && RecordFromString(message[offset..]).Some? ==>
      var r := RecordFromString(message[offset..]).value;
      DecodedPart(message, offset, left) == [r] + DecodedPart(message, offset + RecordSize(r), left - 1)
  {
  }

  class FileList {
    var number: int
    var queue: seq<Record>

    ghost predicate Valid()
      reads this
    {
      number == |queue|
    }

    constructor ()
      ensures Valid() && queue == []
    {
      number, queue := 0, [];
    }

    method Enqueue(r: Record)
      requires Valid()
      modifies this
      ensures Valid() && queue == old(queue) + [r]
    {
      queue := queue + [r];
      number := number + 1;
    }

    method Dequeue() returns (r: Option<Record>)
      requires Valid()
      modifies this
      ensures Valid()
      ensures if old(queue) == [] then r == None && queue == [] else r == Some(old(queue)[0]) && queue == old(queue)[1..]
    {
      if queue == [] {
        return None;
      }
      r := Some(queue[0]);
      queue := queue[1..];
      number := number - 1;
    }

    /** Encodes the list: it empties the queue into a new one, and puts that in place. */
    method ToString() returns (dest: seq<Byte>)
      requires Valid() && |ListToString(number, queue)| <= INT_MAX
      modifies `queue
      ensures dest == ListToString(number, old(queue)) && queue == old(queue)
    {
      hide RecordToString, Padded;
      dest := Padded(number);
      var newQueue := [];
      while queue != []
        invariant newQueue + queue == old(queue)
        invariant dest == Padded(number) + AllToString(newQueue)
        decreases |queue|
      {
        var r := queue[0];
        queue := queue[1..];
        dest := dest + RecordToString(r);
        assert (newQueue + [r])[..|newQueue|] == newQueue;
        newQueue := newQueue + [r];
      }
      assert newQueue + [] == newQueue;
      queue := newQueue;
    }

    /** Decodes a message, and appends its records to the queue; if it fails, those before the faulty one. */
    method FromString(message: seq<Byte>) returns (ok: bool)
      modifies this
      ensures ok <==> ListFromString(message).Some?
      ensures number == if ListNumber(message).Some? then ListNumber(message).value else old(number)
      ensures queue == old(queue) + ListPart(message)
      ensures ok ==> ListPart(message) == ListFromString(message).value && (number >= 0 ==> |ListPart(message)| == number)
    {
      hide RecordFromString, RecordSize, ReadNumber, DecodedPart, ListFromString;
      ListIsPart(message);
      var n := ReadNumber(Take(message, MAX_DIGITS));
      if n.None? {
        return false;
      }
      number := ToInt(n.value);
      var offset: nat, left := MAX_DIGITS, number;
      ghost var done := [];
      while left > 0
        invariant queue == old(queue) + done && number == ToInt(n.value)
        invariant |done| + NonNegative(left) == NonNegative(number)
        invariant ListPart(message) == done + DecodedPart(message, offset, NonNegative(left))
      {
        PartStep(message, offset, left);
        if offset > |message| {
          return false;
        }
        var r := RecordFromString(message[offset..]);
        if r.None? {
          return false;
        }
        queue := queue + [r.value];
        done := done + [r.value];
        offset := offset + RecordSize(r.value);
        left := left - 1;
      }
      PartStep(message, offset, 0);
      return true;
    }
  }
}
