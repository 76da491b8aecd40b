/** Database keys (src/persistence_client_library_prct_access.c) and their stripper (_file.c). */
module DbKeys {
  import opened DbCache

  const NODE := "/node"
  const USER := "/user/"
  const SEAT := "/seat/"

  /** What a key stands for. */
  datatype Name = Name(ldbid: Ldbid, user: Ldbid, seat: Ldbid, resource: string)

  // ---------- printing numbers ----------

  function DigitValue(c: char): nat {
    if '0' <= c <= '9' then (c - '0') as nat else if 'a' <= c <= 'f' then (c - 'a') as nat + 10 else 0
  }

  predicate IsDigit(c: char) {
    '0' <= c <= '9' || 'a' <= c <= 'f'
  }

  function Digit(d: nat): (c: char)
    requires d < 16
    ensures IsDigit(c) && DigitValue(c) == d
  {
    if d < 10 then '0' + d as char else 'a' + (d - 10) as char
  }

  /** printf("%u") for base 10, printf("%x") for base 16 */
  function Print(n: nat, base: nat): string
    requires base == 10 || base == 16
    decreases n
  {
    if n < base then [Digit(n)] else Print(n / base, base) + [Digit(n % base)]
  }

  function Value(s: string, base: nat): nat
    decreases |s|
  {
    if s == [] then 0 else Value(s[..|s| - 1], base) * base + DigitValue(s[|s| - 1])
  }

  lemma ValueAppend(p: string, c: char, base: nat)
    ensures Value(p + [c], base) == Value(p, base) * base + DigitValue(c)
  {
    assert (p + [c])[..|p|] == p;
  }

  lemma Recompose(n: nat, base: nat, v: nat, d: nat)
    requires (base == 10 || base == 16) && v == n / base && d == n % base
    ensures v * base + d == n
  {
    if base == 10 {
      assert v * 10 + d == n;
    } else {
      assert v * 16 + d == n;
    }
  }

  lemma {:induction false} PrintDigits(n: nat, base: nat)
    requires base == 10 || base == 16
    ensures Print(n, base) != []
    ensures forall i :: 0 <= i < |Print(n, base)| ==> IsDigit(Print(n, base)[i])
    decreases n
  {
    if n >= base {
      PrintDigits(n / base, base);
    }
  }

  lemma {:induction false} PrintReads(n: nat, base: nat)
    requires base == 10 || base == 16
    ensures Value(Print(n, base), base) == n && Print(n, base) != []
    ensures forall i :: 0 <= i < |Print(n, base)| ==> IsDigit(Print(n, base)[i])
    decreases n
  {
    PrintDigits(n, base);
    if n < base {
      ValueAppend([], Digit(n), base);
      assert [] + [Digit(n)] == [Digit(n)];
    } else {
      var p, v, d := Print(n / base, base), n / base, n % base;
      PrintReads(v, base);
      ValueAppend(p, Digit(d), base);
      Recompose(n, base, v, d);
    }
  }

  /** A text for the number n: digits of the base, in lower case, and no leading zero. */
  predicate Numeral(s: string, n: nat, base: nat) {
    && s != [] && (|s| > 1 ==> s[0] != '0')
    && (forall i :: 0 <= i < |s| ==> IsDigit(s[i]) && DigitValue(s[i]) < base)
    && Value(s, base) == n
  }

  lemma DigitBack(c: char)
    requires IsDigit(c)
    ensures DigitValue(c) < 16 && Digit(DigitValue(c)) == c && (c == '0' <==> DigitValue(c) == 0)
  {
  }

  lemma DigitsBelow(d: nat, base: nat)
    requires d < base && (base == 10 || base == 16)
    ensures IsDigit(Digit(d)) && DigitValue(Digit(d)) == d && (Digit(d) == '0' <==> d == 0)
  {
    DigitBack(Digit(d));
  }

  lemma {:induction false} NotZero(s: string, base: nat)
    requires s != [] && IsDigit(s[0]) && s[0] != '0' && base > 0
    ensures Value(s, base) > 0
    decreases |s|
  {
    var p, d := s[..|s| - 1], DigitValue(s[|s| - 1]);
    if p == [] {
      DigitBack(s[0]);
    } else {
      NotZero(p, base);
      assert Value(p, base) * base + d > 0;
    }
  }

  lemma Divided(n: nat, base: nat, v: nat, d: nat)
    requires (base == 10 || base == 16) && n == v * base + d && d < base
    ensures v == n / base && d == n % base
  {
    if base == 10 {
      assert n == v * 10 + d;
    } else {
      assert n == v * 16 + d;
    }
  }

  lemma {:induction false} PrintNumeral(n: nat, base: nat)
    requires base == 10 || base == 16
    ensures Numeral(Print(n, base), n, base) && (Print(n, base)[0] == '0' <==> n == 0)
    decreases n
  {
    PrintReads(n, base);
    if n < base {
      DigitsBelow(n, base);
    } else {
      DigitsBelow(n % base, base);
      PrintNumeral(n / base, base);
    }
  }

  lemma {:induction false} NumeralUnique(s: string, n: nat, base: nat)
    requires (base == 10 || base == 16) && Numeral(s, n, base)
    ensures s == Print(n, base)
    decreases |s|
  {
    var p, c := s[..|s| - 1], s[|s| - 1];
    DigitBack(c);
    Divided(n, base, Value(p, base), DigitValue(c));
    if p != [] {
      NotZero(p, base);
      NumeralUnique(p, n / base, base);
    }
  }

  /** The printed text is the only one of its kind. */
  lemma PrintExactly(s: string, n: nat, base: nat)
    requires base == 10 || base == 16
    ensures s == Print(n, base) <==> Numeral(s, n, base)
  {
    PrintNumeral(n, base);
    if Numeral(s, n, base) {
      NumeralUnique(s, n, base);
    }
  }

  lemma PrintInjective(m: nat, n: nat, base: nat)
    requires base == 10 || base == 16
    ensures Print(m, base) == Print(n, base) ==> m == n
  {
    PrintReads(m, base);
    PrintReads(n, base);
  }

  predicate NoSlash(s: string) {
    forall i :: 0 <= i < |s| ==> s[i] != '/'
  }

  lemma PrintNoSlash(n: nat, base: nat)
    requires base == 10 || base == 16
    ensures NoSlash(Print(n, base))
  {
    PrintReads(n, base);
  }

  // ---------- keys ----------

  predicate Plain(ldbid: Ldbid) {
    ldbid < 0x80 || ldbid == 0xFF
  }

  /** The part of a key behind "/user/". */
  function UserPart(n: Name): string {
    Print(n.user, 10) + (if n.seat != 0 then SEAT + Print(n.seat, 10) else "") + "/" + n.resource
  }

  /** get_db_path_and_key, the key half */
  function Key(n: Name): string {
    if Plain(n.ldbid) then
      if n.user == 0 && n.seat == 0 then NODE + "/" + n.resource else USER + UserPart(n)
    else "/" + Print(n.ldbid, 16) + USER + UserPart(n)
  }

  /** The forms of a key, with user and seat in decimal and the ldbid in hexadecimal. */
  lemma KeyForms(n: Name, user: string, seat: string, ldbid: string)
    requires Numeral(user, n.user, 10) && Numeral(seat, n.seat, 10) && Numeral(ldbid, n.ldbid, 16)
    ensures var who := user + (if n.seat == 0 then "" else "/seat/" + seat) + "/" + n.resource;
      Key(n) == if n.ldbid < 0x80 || n.ldbid == 0xFF then
                  if n.user == 0 && n.seat == 0 then "/node/" + n.resource else "/user/" + who
                else "/" + ldbid + "/user/" + who
  {
    PrintExactly(user, n.user, 10);
    PrintExactly(seat, n.seat, 10);
    PrintExactly(ldbid, n.ldbid, 16);
  }

  /** Up to the first slash, two equal texts agree. */
  lemma SplitAtSlash(a: string, x: string, b: string, y: string)
    requires NoSlash(a) && NoSlash(b)
    ensures a + ("/" + x) == b + ("/" + y) <==> a == b && x == y
  {
    var s, t := a + ("/" + x), b + ("/" + y);
    assert s[|a|] == '/' && t[|b|] == '/';
    if |a| < |b| {
      assert t[|a|] == b[|a|];
    } else if |b| < |a| {
      assert s[|b|] == a[|b|];
    } else {
      assert a == s[..|a|] && b == t[..|b|];
      assert x == s[|a| + 1..] && y == t[|b| + 1..];
    }
  }

  /** A resource of no seat whose own name spells out the seat and resource of the other. */
  predicate Shadows(a: Name, b: Name) {
    a.seat == 0 && b.seat != 0 && a.user == b.user && a.resource == "seat/" + Print(b.seat, 10) + "/" + b.resource
  }

  /** The part behind the user number. */
  function SeatPart(n: Name): string {
    if n.seat != 0 then "seat/" + Print(n.seat, 10) + "/" + n.resource else n.resource
  }

  lemma UserPartSplits(n: Name)
    ensures UserPart(n) == Print(n.user, 10) + ("/" + SeatPart(n))
  {
    if n.seat != 0 {
      assert SEAT == "/" + "seat/";
    }
  }

  lemma SeatPartExactly(a: Name, b: Name)
    ensures SeatPart(a) == SeatPart(b) <==>
              || (a.seat != 0 && b.seat != 0 && a.seat == b.seat && a.resource == b.resource)
              || (a.seat == 0 && b.seat == 0 && a.resource == b.resource)
              || (a.seat == 0 && b.seat != 0 && a.resource == SeatPart(b))
              || (b.seat == 0 && a.seat != 0 && b.resource == SeatPart(a))
  {
    if a.seat != 0 && b.seat != 0 {
      var sa, sb := Print(a.seat, 10), Print(b.seat, 10);
      PrintNoSlash(a.seat, 10);
      PrintNoSlash(b.seat, 10);
      PrintInjective(a.seat, b.seat, 10);
      SplitAtSlash(sa, a.resource, sb, b.resource);
      assert SeatPart(a) == "seat/" + (sa + ("/" + a.resource));
      assert SeatPart(b) == "seat/" + (sb + ("/" + b.resource));
      SamePrefix("seat/", sa + ("/" + a.resource), sb + ("/" + b.resource));
    }
  }

  lemma UserPartExactly(a: Name, b: Name)
    ensures UserPart(a) == UserPart(b) <==>
              (a.user == b.user && a.seat == b.seat && a.resource == b.resource) || Shadows(a, b) || Shadows(b, a)
  {
    UserPartSplits(a);
    UserPartSplits(b);
    PrintNoSlash(a.user, 10);
    PrintNoSlash(b.user, 10);
    PrintInjective(a.user, b.user, 10);
    SplitAtSlash(Print(a.user, 10), SeatPart(a), Print(b.user, 10), SeatPart(b));
    SeatPartExactly(a, b);
  }

  /**
   Which names share a key, within the plain ldbids, whose keys do not mention the ldbid, and across all others: only
   a seat number and the same text at the front of a resource id can be mistaken for each other.
   */
  lemma KeyExactly(a: Name, b: Name)
    requires Plain(a.ldbid) <==> Plain(b.ldbid)
    ensures Key(a) == Key(b) <==>
              && (Plain(a.ldbid) || a.ldbid == b.ldbid)
              && ((a.user == b.user && a.seat == b.seat && a.resource == b.resource)
                  || ((Plain(a.ldbid) ==> a.user != 0) && (Shadows(a, b) || Shadows(b, a))))
  {
    UserPartExactly(a, b);
    if Plain(a.ldbid) {
      PlainKeys(a, b);
    } else {
      ExtendedKeys(a, b);
    }
  }

  lemma ExtendedKey(n: Name)
    requires !Plain(n.ldbid)
    ensures Key(n) == "/" + (Print(n.ldbid, 16) + ("/" + ("user/" + UserPart(n))))
  {
    assert USER == "/" + "user/";
  }

  lemma ExtendedKeys(a: Name, b: Name)
    requires !Plain(a.ldbid) && !Plain(b.ldbid)
    ensures Key(a) == Key(b) <==> a.ldbid == b.ldbid && UserPart(a) == UserPart(b)
  {
    var ha, hb := Print(a.ldbid, 16), Print(b.ldbid, 16);
    ExtendedKey(a);
    ExtendedKey(b);
    PrintNoSlash(a.ldbid, 16);
    PrintNoSlash(b.ldbid, 16);
    PrintInjective(a.ldbid, b.ldbid, 16);
    SplitAtSlash(ha, "user/" + UserPart(a), hb, "user/" + UserPart(b));
    SamePrefix("/", ha + ("/" + ("user/" + UserPart(a))), hb + ("/" + ("user/" + UserPart(b))));
    SamePrefix("user/", UserPart(a), UserPart(b));
  }

  lemma SamePrefix(p: string, x: string, y: string)
    ensures p + x == p + y <==> x == y
  {
    assert (p + x)[|p|..] == x && (p + y)[|p|..] == y;
  }

  lemma PlainKeys(a: Name, b: Name)
    requires Plain(a.ldbid) && Plain(b.ldbid)
    ensures Key(a) == Key(b) <==>
              if a.user == 0 && a.seat == 0 then b.user == 0 && b.seat == 0 && a.resource == b.resource
              else !(b.user == 0 && b.seat == 0) && UserPart(a) == UserPart(b)
  {
    var na, nb := a.user == 0 && a.seat == 0, b.user == 0 && b.seat == 0;
    assert Key(a)[1] == (if na then 'n' else 'u') && Key(b)[1] == (if nb then 'n' else 'u');
    if na && nb {
      assert Key(a)[6..] == a.resource && Key(b)[6..] == b.resource;
    } else if !na && !nb {
      assert Key(a)[6..] == UserPart(a) && Key(b)[6..] == UserPart(b);
    }
  }

  /** Local data of ldbid 0xFF and of the numbers from 0x80 on lives in one database, and never under one key. */
  lemma PlainNeverExtended(a: Name, b: Name)
    requires Plain(a.ldbid) && !Plain(b.ldbid)
    ensures Key(a) != Key(b)
  {
    PrintReads(b.ldbid, 16);
    assert Key(a)[1] == 'n' || Key(a)[1] == 'u';
    assert Key(b)[1] == Print(b.ldbid, 16)[0];
  }

  predicate StartsWithSeat(s: string) {
    "seat/" <= s
  }

  lemma ShadowStarts(a: Name, b: Name)
    requires Shadows(a, b)
    ensures StartsWithSeat(a.resource)
  {
    assert a.resource == "seat/" + (Print(b.seat, 10) + "/" + b.resource);
  }

  /** The names the documentation has in mind have one key each. */
  lemma KeysInjective(a: Name, b: Name)
    requires !StartsWithSeat(a.resource) && !StartsWithSeat(b.resource)
    requires if Plain(a.ldbid) && Plain(b.ldbid) then a.ldbid == b.ldbid else true
    ensures Key(a) == Key(b) <==> a == b
  {
    if Plain(a.ldbid) != Plain(b.ldbid) {
      if Plain(a.ldbid) {
        PlainNeverExtended(a, b);
      } else {
        PlainNeverExtended(b, a);
      }
    } else {
      KeyExactly(a, b);
      if Shadows(a, b) || Shadows(b, a) {
        ShadowStarts(if Shadows(a, b) then a else b, if Shadows(a, b) then b else a);
      }
    }
  }

  // ---------- the way back ----------

  /** What is left from the n-th slash on; nothing if there are fewer. */
  function FromSlash(s: string, n: nat): (r: string)
    requires n > 0
    ensures |r| <= |s|
    decreases |s|
  {
    if s == [] then []
    else if s[0] != '/' then FromSlash(s[1..], n)
    else if n == 1 then s
    else FromSlash(s[1..], n - 1)
  }

  function Slashes(s: string): nat
    decreases |s|
  {
    if s == [] then 0 else (if s[0] == '/' then 1 else 0) + Slashes(s[1..])
  }

  /** It starts at the slash that has n - 1 others before it. */
  lemma {:induction false} FromSlashExactly(s: string, n: nat, k: nat)
    requires n > 0 && k < |s| && s[k] == '/'
    ensures FromSlash(s, n) == s[k..] <==> Slashes(s[..k]) == n - 1
    ensures FromSlash(s, n) == [] <==> Slashes(s) < n
    decreases |s|
  {
    if k == 0 {
      assert s[..0] == [] && s[0..] == s;
      FromSlashEmpty(s, n);
    } else {
      assert s[..k][1..] == s[1..][..k - 1] && s[k..] == s[1..][k - 1..] && s[..k][0] == s[0];
      if s[0] != '/' {
        FromSlashExactly(s[1..], n, k - 1);
      } else if n > 1 {
        FromSlashExactly(s[1..], n - 1, k - 1);
      }
    }
  }

  lemma {:induction false} FromSlashEmpty(s: string, n: nat)
    requires n > 0
    ensures FromSlash(s, n) == [] <==> Slashes(s) < n
    decreases |s|
  {
    if s != [] {
      if s[0] != '/' {
        FromSlashEmpty(s[1..], n);
      } else if n > 1 {
        FromSlashEmpty(s[1..], n - 1);
      }
    }
  }

  /**
   get_raw_string: the index its pointer ends at. With fewer than five slashes that is one past the buffer.
   */
  method GetRawString(dbKey: array<char>) returns (keyPtr: nat)
    requires dbKey.Length > 0
    ensures keyPtr <= dbKey.Length && dbKey[keyPtr..] == FromSlash(dbKey[..], 5)
  {
    keyPtr := 0;
    var cnt, i := 0, 0;
    assert dbKey[0..] == dbKey[..];
    while i < dbKey.Length
      invariant 0 <= i <= dbKey.Length && 0 <= cnt < 5
      invariant i > 0 ==> keyPtr == i - 1
      invariant FromSlash(dbKey[i..], 5 - cnt) == FromSlash(dbKey[..], 5)
    {
      assert dbKey[i..][1..] == dbKey[i + 1..];
      if dbKey[i] == '/' {
        cnt := cnt + 1;
      }
      if cnt >= 5 {
        break;
      }
      keyPtr := i;
      i := i + 1;
    }
    keyPtr := keyPtr + 1;
  }

  lemma {:induction false} FromSlashSkips(a: string, s: string, n: nat)
    requires n > 0 && NoSlash(a)
    ensures FromSlash(a + s, n) == FromSlash(s, n)
    decreases |a|
  {
    if a == [] {
      assert a + s == s;
    } else {
      assert (a + s)[1..] == a[1..] + s;
      FromSlashSkips(a[1..], s, n);
    }
  }

  /** Past one slash and the text behind it. */
  lemma Hop(a: string, s: string, n: nat)
    requires n > 1 && NoSlash(a)
    ensures FromSlash("/" + (a + s), n) == FromSlash(s, n - 1)
  {
    assert ("/" + (a + s))[1..] == a + s;
    FromSlashSkips(a, s, n - 1);
  }

  /** The characters behind the key in its buffer hold no slash. */
  lemma {:induction false} FromSlashPadded(s: string, pad: string, n: nat)
    requires n > 0 && NoSlash(pad)
    ensures FromSlash(s + pad, n) == if FromSlash(s, n) == [] then [] else FromSlash(s, n) + pad
    decreases |s|
  {
    if s == [] {
      FromSlashSkips(pad, [], n);
      assert s + pad == pad + [];
    } else {
      assert (s + pad)[1..] == s[1..] + pad;
      FromSlashPadded(s[1..], pad, if s[0] == '/' && n > 1 then n - 1 else n);
    }
  }

  /** The tail of a key from its user number on. */
  lemma UserTail(n: Name, k: nat)
    requires 1 < k <= 4
    ensures FromSlash("/" + UserPart(n), k) ==
              if n.seat == 0 then FromSlash("/" + n.resource, k - 1)
              else if k == 2 then SEAT + Print(n.seat, 10) + "/" + n.resource
              else if k == 3 then "/" + Print(n.seat, 10) + "/" + n.resource
              else "/" + n.resource
  {
    var rest := "/" + n.resource;
    PrintNoSlash(n.user, 10);
    PrintNoSlash(n.seat, 10);
    if n.seat == 0 {
      assert UserPart(n) == Print(n.user, 10) + rest;
      Hop(Print(n.user, 10), rest, k);
    } else {
      var s3 := "/" + (Print(n.seat, 10) + rest);
      var s2 := "/" + ("seat" + s3);
      assert SEAT + Print(n.seat, 10) + "/" + n.resource == s2;
      assert "/" + Print(n.seat, 10) + "/" + n.resource == s3;
      assert UserPart(n) == Print(n.user, 10) + s2;
      Hop(Print(n.user, 10), s2, k);
      if k > 2 {
        Hop("seat", s3, k - 1);
      }
      if k > 3 {
        Hop(Print(n.seat, 10), rest, k - 2);
      }
    }
  }

  lemma AfterSlash(s: string)
    ensures FromSlash("/" + s, 1) == "/" + s
    ensures forall n :: n > 1 ==> FromSlash("/" + s, n) == FromSlash(s, n - 1)
  {
    assert ("/" + s)[1..] == s;
  }

  lemma UserFromSlash(n: Name, k: nat)
    requires k > 1
    ensures FromSlash(USER + UserPart(n), k) == FromSlash("/" + UserPart(n), k - 1)
  {
    assert USER + UserPart(n) == "/" + ("user" + ("/" + UserPart(n)));
    Hop("user", "/" + UserPart(n), k);
  }

  lemma RawOfNode(resource: string)
    ensures FromSlash(NODE + "/" + resource, 5) == FromSlash(resource, 3)
  {
    assert NODE + "/" + resource == "/" + ("node" + ("/" + resource));
    Hop("node", "/" + resource, 5);
    AfterSlash(resource);
  }

  lemma RawOfExtended(n: Name)
    ensures FromSlash("/" + Print(n.ldbid, 16) + USER + UserPart(n), 5) == FromSlash("/" + UserPart(n), 3)
  {
    var tail := USER + UserPart(n);
    assert "/" + Print(n.ldbid, 16) + USER + UserPart(n) == "/" + (Print(n.ldbid, 16) + tail);
    PrintNoSlash(n.ldbid, 16);
    Hop(Print(n.ldbid, 16), tail, 5);
    UserFromSlash(n, 4);
  }

  /** The key again, from its fifth slash on. */
  lemma RawOfKey(n: Name)
    ensures FromSlash(Key(n), 5) ==
              if Plain(n.ldbid) then
                if n.user == 0 && n.seat == 0 then FromSlash(n.resource, 3)
                else if n.seat == 0 then FromSlash(n.resource, 2)
                else "/" + n.resource
              else if n.seat == 0 then FromSlash(n.resource, 1)
              else "/" + Print(n.seat, 10) + "/" + n.resource
  {
    AfterSlash(n.resource);
    if !Plain(n.ldbid) {
      RawOfExtended(n);
      UserTail(n, 3);
    } else if n.user == 0 && n.seat == 0 {
      RawOfNode(n.resource);
    } else {
      UserFromSlash(n, 5);
      UserTail(n, 4);
    }
  }

  /** The stripper gives the resource id back exactly for shared and application-local data that belongs to a seat. */
  lemma RawExactly(n: Name, pad: string)
    requires NoSlash(pad)
    ensures FromSlash(Key(n) + pad, 5) == "/" + n.resource + pad <==> Plain(n.ldbid) && n.seat != 0
  {
    RawOfKey(n);
    FromSlashPadded(Key(n), pad, 5);
    PrintReads(n.seat, 10);
  }
}
