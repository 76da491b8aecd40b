/** The three files of one resource, and the writes a crash can cut short. */
module Disks {
  import opened Options
  import opened Crc32

  datatype File = Orig | Backup | Sum

  /** The resource, its backup copy and its checksum file; None when a file does not exist. */
  datatype Disk = Disk(orig: Option<Bytes>, backup: Option<Bytes>, csum: Option<Bytes>) {
    function Get(f: File): Option<Bytes> {
      match f
      case Orig => orig
      case Backup => backup
      case Sum => csum
    }

    function Set(f: File, c: Option<Bytes>): Disk {
      match f
      case Orig => this.(orig := c)
      case Backup => this.(backup := c)
      case Sum => this.(csum := c)
    }
  }

  /** One system call that changes the disk. */
  datatype Effect =
    | Truncate(f: File)                          // open with O_CREAT and O_TRUNC, or O_TRUNC on an existing file
    | WriteAt(f: File, pos: nat, data: Bytes)
    | Remove(f: File)

  function ZeroFill(n: nat): Bytes {
    seq(n, _ => 0)
  }

  /** write(2) at an offset: overwrites, extends, and fills a gap with zeros; writing nothing changes nothing. */
  function Splice(c: Bytes, pos: nat, data: Bytes): (r: Bytes)
    ensures data != [] ==> |r| == (if pos + |data| > |c| then pos + |data| else |c|) && r[pos..pos + |data|] == data
    ensures forall i :: 0 <= i < |c| && !(pos <= i < pos + |data|) ==> i < |r| && r[i] == c[i]
  {
    if data == [] then c
    else if pos >= |c| then c + ZeroFill(pos - |c|) + data
    else if pos + |data| >= |c| then c[..pos] + data
    else c[..pos] + data + c[pos + |data|..]
  }

  /** Every byte of the file after a write. */
  lemma SpliceAt(c: Bytes, pos: nat, data: Bytes, i: nat)
    requires data != [] && i < |Splice(c, pos, data)|
    ensures Splice(c, pos, data)[i] ==
            if pos <= i < pos + |data| then data[i - pos] else if i < |c| then c[i] else 0
  {
    var r := Splice(c, pos, data);
    if pos <= i < pos + |data| {
      assert r[i] == r[pos..pos + |data|][i - pos];
    }
  }

  function Exec(d: Disk, e: Effect): Disk {
    match e
    case Truncate(f) => d.Set(f, Some([]))
    case WriteAt(f, pos, data) => if d.Get(f).None? then d else d.Set(f, Some(Splice(d.Get(f).value, pos, data)))
    case Remove(f) => d.Set(f, None)
  }

  function ExecAll(d: Disk, plan: seq<Effect>): Disk
    decreases |plan|
  {
    if plan == [] then d else ExecAll(Exec(d, plan[0]), plan[1..])
  }

  lemma {:induction false} ExecConcat(d: Disk, a: seq<Effect>, b: seq<Effect>)
    ensures ExecAll(d, a + b) == ExecAll(ExecAll(d, a), b)
    decreases |a|
  {
    if a == [] {
      assert a + b == b;
    } else {
      assert (a + b)[1..] == a[1..] + b;
      ExecConcat(Exec(d, a[0]), a[1..], b);
    }
  }

  /** A write that was cut short; the few bytes of a checksum are assumed to go out in one piece. */
  ghost predicate Torn(e: Effect, t: Effect) {
    e.WriteAt? && e.f != Sum && t.WriteAt? && t.f == e.f && t.pos == e.pos && t.data <= e.data
  }

  /** The disk after a crash while `plan` was running: some calls done, perhaps one more in part. */
  ghost predicate Crashed(d: Disk, plan: seq<Effect>, r: Disk)
    decreases |plan|
  {
    || r == d
    || (plan != [] && exists t :: Torn(plan[0], t) && r == Exec(d, t))
    || (plan != [] && Crashed(Exec(d, plan[0]), plan[1..], r))
  }

  // ---------- the checksum text ----------

  function Digit(n: nat): bv8 {
    if n == 0 then 48 else if n == 1 then 49 else if n == 2 then 50 else if n == 3 then 51
    else if n == 4 then 52 else if n == 5 then 53 else if n == 6 then 54 else if n == 7 then 55
    else if n == 8 then 56 else if n == 9 then 57 else if n == 10 then 97 else if n == 11 then 98
    else if n == 12 then 99 else if n == 13 then 100 else if n == 14 then 101 else 102
  }

  /** printf("%x") */
  function Hex(n: nat): (r: Bytes)
    ensures r != []
    decreases n
  {
    if n < 16 then [Digit(n)] else Hex(n / 16) + [Digit(n % 16)]
  }

  /** What a character counts for as a hexadecimal digit; 16 if it is none. */
  function DigitValue(b: bv8): nat {
    if 48 <= b <= 57 then (b - 48) as nat else if 97 <= b <= 102 then (b - 87) as nat else 16
  }

  /** The number that a text spells from left to right, behind digits that came to v. */
  function ReadFrom(v: nat, s: Bytes): nat
    decreases |s|
  {
    if s == [] then v else ReadFrom(v * 16 + DigitValue(s[0]), s[1..])
  }

  /** A number in lower case without leading zeros. */
  predicate Spells(s: Bytes, n: nat) {
    && s != [] && (|s| > 1 ==> s[0] != 48) && (forall i :: 0 <= i < |s| ==> DigitValue(s[i]) < 16)
    && ReadFrom(0, s) == n
  }

  lemma {:induction false} ReadLast(v: nat, s: Bytes, d: bv8)
    ensures ReadFrom(v, s + [d]) == ReadFrom(v, s) * 16 + DigitValue(d)
    decreases |s|
  {
    if s == [] {
      assert [d][1..] == [] && s + [d] == [d];
    } else {
      assert (s + [d])[1..] == s[1..] + [d];
      ReadLast(v * 16 + DigitValue(s[0]), s[1..], d);
    }
  }

  lemma {:induction false} ReadGrows(v: nat, s: Bytes)
    ensures ReadFrom(v, s) >= v
    decreases |s|
  {
    if s != [] {
      ReadGrows(v * 16 + DigitValue(s[0]), s[1..]);
    }
  }

  lemma DigitReads(n: nat)
    requires n < 16
    ensures DigitValue(Digit(n)) == n && (Digit(n) == 48 <==> n == 0)
  {
  }

  lemma DigitUnique(b: bv8)
    requires DigitValue(b) < 16
    ensures Digit(DigitValue(b)) == b
  {
  }

  lemma {:induction false} HexReads(n: nat)
    ensures Spells(Hex(n), n) && (Hex(n)[0] == 48 <==> n == 0)
    decreases n
  {
    if n < 16 {
      DigitReads(n);
      assert [Digit(n)][1..] == [];
    } else {
      DigitReads(n % 16);
      HexReads(n / 16);
      ReadLast(0, Hex(n / 16), Digit(n % 16));
    }
  }

  lemma NotZero(s: Bytes)
    requires s != [] && s[0] != 48 && DigitValue(s[0]) < 16
    ensures ReadFrom(0, s) > 0
  {
    DigitUnique(s[0]);
    ReadGrows(DigitValue(s[0]), s[1..]);
  }

  lemma Divided(n: nat, v: nat, d: nat)
    requires n == v * 16 + d && d < 16
    ensures v == n / 16 && d == n % 16
  {
  }

  lemma LastDigit(s: Bytes, n: nat)
    requires Spells(s, n)
    ensures Digit(n % 16) == s[|s| - 1]
    ensures if |s| == 1 then n < 16 else n >= 16 && Spells(s[..|s| - 1], n / 16)
  {
    var p, d := s[..|s| - 1], s[|s| - 1];
    assert s == p + [d];
    ReadLast(0, p, d);
    DigitUnique(d);
    Divided(n, ReadFrom(0, p), DigitValue(d));
    if p != [] {
      NotZero(p);
    }
  }

  /** A number has only one such text. */
  lemma {:induction false} SpellingUnique(s: Bytes, n: nat)
    requires Spells(s, n)
    ensures s == Hex(n)
    decreases |s|
  {
    LastDigit(s, n);
    if |s| > 1 {
      SpellingUnique(s[..|s| - 1], n / 16);
    }
  }

  /** What pclCalcCrc32Csum leaves in its buffer; of an empty file it leaves the empty text. */
  function Csum(content: Bytes): (r: Bytes)
    ensures r == [] <==> content == []
  {
    if content == [] then [] else Hex(Crc(0, content) as nat)
  }

  /** Of any other file it is the checksum in hexadecimal, in lower case and without leading zeros. */
  lemma CsumExactly(content: Bytes, s: Bytes)
    requires content != []
    ensures Csum(content) == s <==> Spells(s, Crc(0, content) as nat)
  {
    HexReads(Crc(0, content) as nat);
    if Spells(s, Crc(0, content) as nat) {
      SpellingUnique(s, Crc(0, content) as nat);
    }
  }

  function Register(n: nat): bv32
    requires n < 0x1_0000_0000
  {
    n as bv32
  }

  lemma RegisterBack(a: bv32)
    ensures a as nat < 0x1_0000_0000 && Register(a as nat) == a
  {
  }

  /** Two files have the same text exactly if they have the same checksum, or are both empty. */
  lemma CsumSame(a: Bytes, b: Bytes)
    ensures Csum(a) == Csum(b) <==> if a == [] || b == [] then a == b else Crc(0, a) == Crc(0, b)
  {
    if a != [] && b != [] {
      RegisterBack(Crc(0, a));
      RegisterBack(Crc(0, b));
      CsumExactly(a, Csum(b));
      CsumExactly(b, Csum(b));
    }
  }
}
