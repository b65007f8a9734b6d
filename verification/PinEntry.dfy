/** Curl's resolve entries, `host:port:address`, and a parser that reads them back from the end. The
    address is the IP the URL guard validated, so it holds no brackets; the host may be any text. */
module PinEntry {
  import opened Seqs

  /** IPv6 literals are bracketed so that their colons are not separators. */
  function Bracketed(s: string): string {
    if ':' in s then "[" + s + "]" else s
  }

  function DigitChar(d: nat): char
    requires d < 10
  {
    ('0' as int + d) as char
  }

  function Decimal(n: nat): (s: string)
    ensures s != [] && forall i :: 0 <= i < |s| ==> '0' <= s[i] <= '9'
  {
    if n < 10 then [DigitChar(n)] else Decimal(n / 10) + [DigitChar(n % 10)]
  }

  /** `_resolve_pin_entry` */
  function PinFor(host: string, port: nat, address: string): string {
    Bracketed(host) + ":" + Decimal(port) + ":" + Bracketed(address)
  }

  // ---- Reading an entry back ----

  datatype Triple = Triple(host: string, port: nat, address: string)

  function ReadDecimal(s: string): Option<nat> {
    if s == [] || !('0' <= s[|s| - 1] <= '9') then None
    else
      var d := s[|s| - 1] as nat - '0' as nat;
      if |s| == 1 then Some(d)
      else
        var front := ReadDecimal(s[..|s| - 1]);
        if front.None? then None else Some(10 * front.value + d)
  }

  /** What stands before and after the last `c`. */
  function SplitLast(s: string, c: char): Option<(string, string)> {
    if s == [] then None
    else if s[|s| - 1] == c then Some((s[..|s| - 1], []))
    else
      var r := SplitLast(s[..|s| - 1], c);
      if r.None? then None else Some((r.value.0, r.value.1 + [s[|s| - 1]]))
  }

  /** A printed name with a colon in it was bracketed. */
  function Unbracketed(s: string): string {
    if ':' in s && |s| >= 2 then s[1..|s| - 1] else s
  }

  /** Splits the address off the end: back to its bracket, or back to the last colon. */
  function TakeAddress(s: string): Option<(string, string)> {
    if s != [] && s[|s| - 1] == ']' then
      var r := SplitLast(s[..|s| - 1], '[');
      if r.None? || r.value.0 == [] || r.value.0[|r.value.0| - 1] != ':' then None
      else Some((r.value.0[..|r.value.0| - 1], r.value.1))
    else SplitLast(s, ':')
  }

  function Parse(s: string): Option<Triple> {
    var last := TakeAddress(s);
    if last.None? then None
    else
      var first := SplitLast(last.value.0, ':');
      if first.None? then None
      else
        var port := ReadDecimal(first.value.1);
        if port.None? then None else Some(Triple(Unbracketed(first.value.0), port.value, last.value.1))
  }

  predicate BracketFree(s: string) {
    '[' !in s && ']' !in s
  }

  lemma {:induction false} LastSplit(a: string, c: char, b: string)
    requires c !in b
    ensures SplitLast(a + [c] + b, c) == Some((a, b))
  {
    var s := a + [c] + b;
    if b == [] {
      assert s[..|s| - 1] == a;
    } else {
      assert s[..|s| - 1] == a + [c] + b[..|b| - 1];
      assert b == b[..|b| - 1] + [b[|b| - 1]] && s[|s| - 1] == b[|b| - 1];
      LastSplit(a, c, b[..|b| - 1]);
    }
  }

  lemma {:induction false} DecimalReadBack(n: nat)
    ensures ReadDecimal(Decimal(n)) == Some(n)
  {
    if n >= 10 {
      DecimalReadBack(n / 10);
      assert Decimal(n)[..|Decimal(n)| - 1] == Decimal(n / 10);
    }
  }

  lemma DecimalNoColon(n: nat)
    ensures ':' !in Decimal(n)
  {
  }

  lemma NameReadBack(name: string)
    ensures Unbracketed(Bracketed(name)) == name
  {
  }

  /** A bracket-free address is read back whole, whatever stands before it. */
  lemma AddressReadBack(front: string, address: string)
    requires BracketFree(address)
    ensures TakeAddress(front + ":" + Bracketed(address)) == Some((front, address))
  {
    var s := front + ":" + Bracketed(address);
    if ':' in address {
      assert s == (front + ":") + "[" + address + "]";
      assert s[..|s| - 1] == (front + ":") + "[" + address;
      LastSplit(front + ":", '[', address);
      assert (front + ":")[..|front|] == front;
    } else {
      LastSplit(front, ':', address);
      assert s[|s| - 1] == if address == [] then ':' else address[|address| - 1];
    }
  }

  /** Printing then parsing gives back host, port and address, IPv6 or not. */
  lemma RoundTrip(host: string, port: nat, address: string)
    requires BracketFree(address)
    ensures Parse(PinFor(host, port, address)) == Some(Triple(host, port, address))
  {
    hide TakeAddress, Decimal, ReadDecimal, Bracketed, Unbracketed, SplitLast;
    AddressReadBack(Bracketed(host) + ":" + Decimal(port), address);
    DecimalNoColon(port);
    LastSplit(Bracketed(host), ':', Decimal(port));
    DecimalReadBack(port);
    NameReadBack(host);
  }

  /** So the printed triple is unambiguous. */
  lemma Unambiguous(h1: string, p1: nat, a1: string, h2: string, p2: nat, a2: string)
    requires BracketFree(a1) && BracketFree(a2)
    ensures PinFor(h1, p1, a1) == PinFor(h2, p2, a2) <==> h1 == h2 && p1 == p2 && a1 == a2
  {
    RoundTrip(h1, p1, a1);
    RoundTrip(h2, p2, a2);
  }

  // ---- What curl is given ----

  /** `part` is the text from position `i` on, bare when it holds no colon and in brackets when it does; `n` is
      where it ends. */
  predicate PrintedAt(s: string, i: nat, part: string, n: nat) {
    if ':' in part then n == i + |part| + 2 <= |s| && s[i] == '[' && s[i + 1..n - 1] == part && s[n - 1] == ']'
    else n == i + |part| <= |s| && s[i..n] == part
  }

  lemma ReadZero()
    ensures ReadDecimal("0") == Some(0)
  {
  }

  lemma PrintedLast(before: string, part: string)
    ensures var s := before + Bracketed(part); PrintedAt(s, |before|, part, |s|)
  {
    var (s, b) := (before + Bracketed(part), Bracketed(part));
    assert s[|before|..] == b;
    if ':' in part {
      assert b[1..|b| - 1] == part;
      assert s[|before| + 1..|s| - 1] == b[1..|b| - 1];
    }
  }

  lemma PrintedFirst(part: string, after: string)
    ensures PrintedAt(Bracketed(part) + after, 0, part, |Bracketed(part)|)
  {
    PrintedLast("", part);
    assert "" + Bracketed(part) == Bracketed(part);
    assert (Bracketed(part) + after)[..|Bracketed(part)|] == Bracketed(part);
    if ':' in part {
      assert (Bracketed(part) + after)[1..|part| + 1] == Bracketed(part)[1..|part| + 1];
    }
  }

  lemma BracketedLength(s: string)
    ensures |Bracketed(s)| == |s| + if ':' in s then 2 else 0
  {
  }

  lemma Separated(h: string, d: string, a: string)
    ensures var (s, p) := (h + ":" + d + ":" + a, |h| + 1 + |d|);
            p < |s| && s[|h|] == ':' && s[|h| + 1..p] == d && s[p] == ':'
  {
  }

  /** A port is printed in decimal digits without leading zeros. */
  lemma {:induction false} DecimalPlain(n: nat)
    ensures var d := Decimal(n); d != [] && (d[0] == '0' ==> d == "0") && ReadDecimal(d) == Some(n)
  {
    DecimalReadBack(n);
    if n >= 10 {
      DecimalPlain(n / 10);
      assert Decimal(n)[0] == Decimal(n / 10)[0];
      if Decimal(n / 10) == "0" {
        assert ReadDecimal("0") == Some(0) by {
          ReadZero();
        }
      }
    }
  }

  /** The entry is the host, a colon, the port, a colon and the address, and nothing else; only a part with a
      colon of its own is bracketed. */
  lemma EntryLayout(host: string, port: nat, address: string)
    ensures var (s, h) := (PinFor(host, port, address), |host| + if ':' in host then 2 else 0);
            var p := h + 1 + |Decimal(port)|;
            && PrintedAt(s, 0, host, h) && h < p < |s|
            && s[h] == ':' && s[h + 1..p] == Decimal(port) && s[p] == ':'
            && PrintedAt(s, p + 1, address, |s|)
  {
    hide Decimal, PrintedAt, Bracketed;
    var (s, h, d, a) := (PinFor(host, port, address), Bracketed(host), Decimal(port), Bracketed(address));
    BracketedLength(host);
    Separated(h, d, a);
    PrintedFirst(host, ":" + d + ":" + a);
    assert h + (":" + d + ":" + a) == s;
    PrintedLast(h + ":" + d + ":", address);
  }
}
