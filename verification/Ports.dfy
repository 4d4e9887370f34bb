/** The port-union parser of the port-hopping configuration. */
module Ports {
  import opened Bytes

  // ---------- string primitives ----------

  // Position of the first `c` in `s`.
  function IndexOf(s: string, c: char): (i: nat)
    requires c in s
    ensures i < |s| && s[i] == c && c !in s[..i]
  {
    if s[0] == c then 0 else 1 + IndexOf(s[1..], c)
  }

  function Split(s: string, c: char): (parts: seq<string>)
    ensures parts != []
  {
    if c !in s then [s]
    else [s[..IndexOf(s, c)]] + Split(s[IndexOf(s, c) + 1..], c)
  }

  function Join(parts: seq<string>, c: char): (s: string)
    requires parts != []
  {
    if |parts| == 1 then parts[0] else parts[0] + [c] + Join(parts[1..], c)
  }

  // The Unicode White_Space property.
  predicate IsWhitespace(c: char) {
    var n := c as int;
    || 0x09 <= n <= 0x0D || n == 0x20 || n == 0x85 || n == 0xA0 || n == 0x1680
    || 0x2000 <= n <= 0x200A || n == 0x2028 || n == 0x2029 || n == 0x202F || n == 0x205F || n == 0x3000
  }

  function TrimStart(s: string): (t: string) {
    if s != [] && IsWhitespace(s[0]) then TrimStart(s[1..]) else s
  }

  function TrimEnd(s: string): (t: string) {
    if s != [] && IsWhitespace(s[|s| - 1]) then TrimEnd(s[..|s| - 1]) else s
  }

  function Trim(s: string): (t: string) { TrimEnd(TrimStart(s)) }

  function Decimal(s: string): (r: Option<nat>) {
    if s == [] then Some(0)
    else
      var (front, d) := (Decimal(s[..|s| - 1]), s[|s| - 1]);
      if front == None || !('0' <= d <= '9') then None
      else Some(front.value * 10 + (d as int - '0' as int))
  }

  // `str::parse::<u16>`: an optional plus sign, at least one digit, no overflow.
  function ParseU16(s: string): (r: Option<u16>) {
    var digits := if s != [] && s[0] == '+' then s[1..] else s;
    if digits == [] then None
    else
      var v := Decimal(digits);
      if v.Some? && v.value < 0x1_0000 then Some(v.value) else None
  }

  // ---------- parts ----------

  datatype Range = Range(first: u16, last: u16)

  predicate InRange(p: int, r: Range) { r.first <= p <= r.last }

  // One comma part: a port, or two ports around the first dash, in either order.
  function ParsePart(part: string): (r: Option<Range>)
    ensures r.Some? ==> r.value.first <= r.value.last
  {
    if '-' in part then
      var i := IndexOf(part, '-');
      var (a, b) := (ParseU16(Trim(part[..i])), ParseU16(Trim(part[i + 1..])));
      if a == None || b == None then None
      else Some(Range(Min(a.value, b.value), Max(a.value, b.value)))
    else
      var p := ParseU16(Trim(part));
      if p == None then None else Some(Range(p.value, p.value))
  }

  // `start..=end`
  function Enumerate(r: Range): (ps: seq<u16>)
    requires r.first <= r.last
    ensures |ps| == r.last - r.first + 1 && forall i | 0 <= i < |ps| :: ps[i] == r.first + i
  {
    seq(r.last - r.first + 1, i requires 0 <= i <= r.last - r.first => r.first + i)
  }

  lemma EnumerateMember(r: Range, p: u16)
    requires r.first <= r.last
    ensures p in Enumerate(r) <==> InRange(p, r)
  {
    if InRange(p, r) {
      assert Enumerate(r)[p - r.first] == p;
    }
  }

  // ---------- sort and dedup ----------

  predicate Sorted(s: seq<u16>) { forall i, j | 0 <= i < j < |s| :: s[i] <= s[j] }

  predicate Increasing(s: seq<u16>) { forall i, j | 0 <= i < j < |s| :: s[i] < s[j] }

  predicate SameMembers(s: seq<u16>, t: seq<u16>) { forall p: u16 :: p in s <==> p in t }

  lemma SortedSnoc(s: seq<u16>, x: u16)
    requires Sorted(s) && (s == [] || s[|s| - 1] <= x)
    ensures Sorted(s + [x])
  {
  }

  lemma IncreasingSnoc(s: seq<u16>, x: u16)
    requires Increasing(s) && (s == [] || s[|s| - 1] < x)
    ensures Increasing(s + [x])
  {
  }

  function Insert(s: seq<u16>, x: u16): (r: seq<u16>)
    ensures r != [] && forall p :: p in r <==> p in s || p == x
  {
    if s == [] || s[|s| - 1] <= x then s + [x]
    else
      assert s == s[..|s| - 1] + [s[|s| - 1]];
      Insert(s[..|s| - 1], x) + [s[|s| - 1]]
  }

  lemma {:induction false} InsertSorts(s: seq<u16>, x: u16)
    requires Sorted(s)
    ensures Sorted(Insert(s, x))
  {
    if s == [] || s[|s| - 1] <= x {
      SortedSnoc(s, x);
    } else {
      var (front, last) := (s[..|s| - 1], s[|s| - 1]);
      InsertSorts(front, x);
      var r := Insert(front, x);
      assert r[|r| - 1] in r;
      SortedSnoc(r, last);
    }
  }

  function SortUnstable(s: seq<u16>): (r: seq<u16>) {
    if s == [] then [] else Insert(SortUnstable(s[..|s| - 1]), s[|s| - 1])
  }

  lemma {:induction false} SortSorts(s: seq<u16>)
    ensures Sorted(SortUnstable(s)) && SameMembers(SortUnstable(s), s)
  {
    if s != [] {
      SortSorts(s[..|s| - 1]);
      InsertSorts(SortUnstable(s[..|s| - 1]), s[|s| - 1]);
      assert s == s[..|s| - 1] + [s[|s| - 1]];
    }
  }

  // Removes consecutive repetitions.
  function Dedup(s: seq<u16>): (r: seq<u16>) {
    if |s| <= 1 then s
    else
      var front := Dedup(s[..|s| - 1]);
      if s[|s| - 1] == s[|s| - 2] then front else front + [s[|s| - 1]]
  }

  lemma {:induction false} DedupIncreases(s: seq<u16>)
    requires Sorted(s)
    ensures Increasing(Dedup(s)) && SameMembers(Dedup(s), s)
  {
    if |s| > 1 {
      var (front, last) := (s[..|s| - 1], s[|s| - 1]);
      var r := Dedup(front);
      DedupIncreases(front);
      assert s == front + [last];
      assert front[|front| - 1] == s[|s| - 2] && front[0] in r;
      assert r[|r| - 1] in r;
      assert r[|r| - 1] in front;
      if last != s[|s| - 2] {
        IncreasingSnoc(r, last);
      }
    }
  }

  // The last element is the greatest, and the front is everything else.
  lemma LastOfIncreasing(a: seq<u16>, p: u16)
    requires Increasing(a) && a != []
    ensures p in a ==> p <= a[|a| - 1]
    ensures p in a[..|a| - 1] <==> p in a && p != a[|a| - 1]
  {
    assert a == a[..|a| - 1] + [a[|a| - 1]];
  }

  /** An increasing list is determined by its members. */
  lemma {:induction false} IncreasingIsUnique(a: seq<u16>, b: seq<u16>)
    requires Increasing(a) && Increasing(b) && SameMembers(a, b)
    ensures a == b
  {
    HasMember(a);
    HasMember(b);
    if a != [] && b != [] {
      var (x, y) := (a[|a| - 1], b[|b| - 1]);
      var (restA, restB) := (a[..|a| - 1], b[..|b| - 1]);
      LastOfIncreasing(a, y);
      LastOfIncreasing(b, x);
      forall p: u16
        ensures p in restA <==> p in restB
      {
        LastOfIncreasing(a, p);
        LastOfIncreasing(b, p);
      }
      IncreasingIsUnique(restA, restB);
      assert a == restA + [x] && b == restB + [y];
    }
  }

  lemma HasMember(s: seq<u16>)
    ensures s == [] || exists p: u16 :: p in s
  {
    if s != [] {
      assert s[0] in s;
    }
  }

  // ---------- the parser ----------

  // The ports of all parts in order of appearance, unless some part is malformed.
  function Collect(parts: seq<string>): (r: Option<seq<u16>>) {
    if parts == [] then Some([])
    else
      var front := Collect(parts[..|parts| - 1]);
      var r := ParsePart(parts[|parts| - 1]);
      if front == None || r == None then None else Some(front.value + Enumerate(r.value))
  }

  predicate IsAll(spec: string) { spec == "all" || spec == "*" }

  function PortsOf(spec: string): (r: Option<seq<u16>>) {
    if IsAll(spec) then Some(Enumerate(Range(0, 0xFFFF)))
    else
      var ports := Collect(Split(spec, ','));
      if ports == None || ports.value == [] then None else Some(Dedup(SortUnstable(ports.value)))
  }

  // The loop over the comma parts.
  method CollectPorts(parts: seq<string>) returns (r: Option<seq<u16>>)
    ensures r == Collect(parts)
  {
    var ports: seq<u16> := [];
    for k := 0 to |parts|
      invariant Collect(parts[..k]) == Some(ports)
    {
      assert parts[..k + 1][..k] == parts[..k];
      var part := ParsePart(parts[k]);
      if part == None {
        MalformedPart(parts, k);
        return None;
      }
      ports := ports + Enumerate(part.value);
    }
    assert parts[..|parts|] == parts;
    r := Some(ports);
  }

  method ParsePorts(spec: string) returns (r: Option<seq<u16>>)
    ensures r == PortsOf(spec)
  {
    if spec == "all" || spec == "*" {
      return Some(Enumerate(Range(0, 0xFFFF)));
    }
    var ports := CollectPorts(Split(spec, ','));
    if ports == None || ports.value == [] {
      return None;
    }
    r := Some(Dedup(SortUnstable(ports.value)));
  }

  lemma {:induction false} MalformedPart(parts: seq<string>, k: nat)
    requires k < |parts| && ParsePart(parts[k]) == None
    ensures Collect(parts) == None
  {
    if k < |parts| - 1 {
      MalformedPart(parts[..|parts| - 1], k);
    }
  }

  // ---------- what the list contains ----------

  predicate Malformed(part: string) { ParsePart(part) == None }

  predicate Covers(part: string, p: u16) { ParsePart(part).Some? && InRange(p, ParsePart(part).value) }

  lemma {:induction false} CollectMembers(parts: seq<string>, p: u16)
    ensures Collect(parts) == None <==> exists part <- parts :: Malformed(part)
    ensures Collect(parts).Some? ==> (p in Collect(parts).value <==> exists part <- parts :: Covers(part, p))
    ensures Collect(parts).Some? && parts != [] ==> Collect(parts).value != []
  {
    if parts != [] {
      var (front, last) := (parts[..|parts| - 1], parts[|parts| - 1]);
      assert parts == front + [last];
      CollectMembers(front, p);
      if ParsePart(last).Some? {
        EnumerateMember(ParsePart(last).value, p);
      }
      assert Malformed(last) ==> last in parts;
      assert Covers(last, p) ==> last in parts;
      assert forall part <- front :: part in parts;
    }
  }

  // `ps` is the union of the parts, canonically.
  ghost predicate IsUnion(ps: seq<u16>, parts: seq<string>) {
    Increasing(ps) && ps != [] && forall p: u16 :: p in ps <==> exists part <- parts :: Covers(part, p)
  }

  /** None exactly for a malformed part; otherwise the strictly increasing, non-empty union of the parts. */
  lemma PortsAreUnion(spec: string)
    requires !IsAll(spec)
    ensures PortsOf(spec) == None <==> exists part <- Split(spec, ',') :: Malformed(part)
    ensures PortsOf(spec).Some? ==> IsUnion(PortsOf(spec).value, Split(spec, ','))
  {
    var parts := Split(spec, ',');
    CollectMembers(parts, 0);
    if Collect(parts).Some? {
      var ports := Collect(parts).value;
      SortSorts(ports);
      DedupIncreases(SortUnstable(ports));
      var ps := Dedup(SortUnstable(ports));
      forall p: u16
        ensures p in ps <==> exists part <- parts :: Covers(part, p)
      {
        CollectMembers(parts, p);
      }
      assert ports[0] in ps;
    }
  }

  /** The first port, which names the canonical address, exists and is the smallest. */
  lemma FirstIsMinimum(spec: string)
    requires PortsOf(spec).Some?
    ensures var ps := PortsOf(spec).value; ps != [] && forall p <- ps :: ps[0] <= p
  {
    if !IsAll(spec) {
      PortsAreUnion(spec);
    }
  }

  /** Only the set of parts matters: order and repetition do not. */
  lemma SamePartsSamePorts(a: string, b: string)
    requires !IsAll(a) && !IsAll(b)
    requires forall part :: part in Split(a, ',') <==> part in Split(b, ',')
    ensures PortsOf(a) == PortsOf(b)
  {
    PortsAreUnion(a);
    PortsAreUnion(b);
    assert (exists part <- Split(a, ',') :: Malformed(part)) <==> (exists part <- Split(b, ',') :: Malformed(part));
    if PortsOf(a).Some? {
      var (ps, qs) := (PortsOf(a).value, PortsOf(b).value);
      forall p: u16
        ensures p in ps <==> p in qs
      {
        assert (exists part <- Split(a, ',') :: Covers(part, p)) <==> (exists part <- Split(b, ',') :: Covers(part, p));
      }
      IncreasingIsUnique(ps, qs);
    }
  }

  lemma {:induction false} IndexAfter(a: string, c: char, rest: string)
    requires c !in a
    ensures c in a + [c] + rest && IndexOf(a + [c] + rest, c) == |a|
  {
    var s := a + [c] + rest;
    assert s[|a|] == c;
    if a != [] {
      IndexAfter(a[1..], c, rest);
      assert s[1..] == a[1..] + [c] + rest;
    }
  }

  /** Splitting inverts joining of separator-free parts. */
  lemma {:induction false} SplitJoin(parts: seq<string>, c: char)
    requires parts != [] && forall part <- parts :: c !in part
    ensures Split(Join(parts, c), c) == parts
  {
    if |parts| == 1 {
      assert parts[0] in parts;
      assert parts == [parts[0]];
    } else {
      assert parts[0] in parts;
      assert forall part <- parts[1..] :: part in parts;
      SplitJoin(parts[1..], c);
      var rest := Join(parts[1..], c);
      IndexAfter(parts[0], c, rest);
      var s := Join(parts, c);
      assert s[..|parts[0]|] == parts[0] && s[|parts[0]| + 1..] == rest;
      assert parts == [parts[0]] + parts[1..];
    }
  }

  ghost predicate CommaFree(parts: seq<string>) { forall part <- parts :: ',' !in part }

  /** Permuting or repeating the comma parts of a spec leaves the port list unchanged. */
  lemma PartsPermute(p: seq<string>, q: seq<string>)
    requires p != [] && q != []
    requires CommaFree(p) && CommaFree(q)
    requires forall part :: part in p <==> part in q
    requires !IsAll(Join(p, ',')) && !IsAll(Join(q, ','))
    ensures PortsOf(Join(p, ',')) == PortsOf(Join(q, ','))
  {
    SplitJoin(p, ',');
    SplitJoin(q, ',');
    SamePartsSamePorts(Join(p, ','), Join(q, ','));
  }

  lemma {:induction false} TrimStartKeepsDash(s: string)
    requires '-' in s
    ensures '-' in TrimStart(s)
  {
    if IsWhitespace(s[0]) {
      assert s == [s[0]] + s[1..];
      TrimStartKeepsDash(s[1..]);
    }
  }

  lemma {:induction false} TrimEndKeepsDash(s: string)
    requires '-' in s
    ensures '-' in TrimEnd(s)
  {
    if IsWhitespace(s[|s| - 1]) {
      assert s == s[..|s| - 1] + [s[|s| - 1]];
      TrimEndKeepsDash(s[..|s| - 1]);
    }
  }

  lemma {:induction false} DashIsNoDigit(s: string)
    requires '-' in s
    ensures Decimal(s) == None
  {
    assert s == s[..|s| - 1] + [s[|s| - 1]];
    if s[|s| - 1] != '-' {
      DashIsNoDigit(s[..|s| - 1]);
    }
  }

  lemma DashIsNoPort(s: string)
    requires '-' in s
    ensures ParseU16(Trim(s)) == None
  {
    TrimStartKeepsDash(s);
    TrimEndKeepsDash(TrimStart(s));
    var t := Trim(s);
    assert t == [t[0]] + t[1..];
    DashIsNoDigit(if t[0] == '+' then t[1..] else t);
  }

  // A second dash is never part of a number.
  lemma TwoDashes(a: string, b: string)
    requires '-' in a || '-' in b
    ensures ParsePart(a + "-" + b) == None
  {
    var s := a + "-" + b;
    assert s[|a|] == '-';
    var i := IndexOf(s, '-');
    var k := if '-' in a then |a| else |a| + 1 + IndexOf(b, '-');
    assert i < k by {
      if '-' in a {
        assert s[IndexOf(a, '-')] == '-' && IndexOf(a, '-') < k;
      }
    }
    assert s[i + 1..][k - i - 1] == '-';
    DashIsNoPort(s[i + 1..]);
  }

  /** A range may be written either way round. */
  lemma RangeEndsSwap(a: string, b: string)
    ensures ParsePart(a + "-" + b) == ParsePart(b + "-" + a)
  {
    if '-' in a || '-' in b {
      TwoDashes(a, b);
      TwoDashes(b, a);
    } else {
      IndexAfter(a, '-', b);
      IndexAfter(b, '-', a);
      var (s, t) := (a + "-" + b, b + "-" + a);
      assert s[..|a|] == a && s[|a| + 1..] == b && t[..|b|] == b && t[|b| + 1..] == a;
    }
  }

  lemma {:induction false} CollectPointwise(p: seq<string>, q: seq<string>)
    requires |p| == |q| && forall i | 0 <= i < |p| :: ParsePart(p[i]) == ParsePart(q[i])
    ensures Collect(p) == Collect(q)
  {
    if p != [] {
      CollectPointwise(p[..|p| - 1], q[..|q| - 1]);
    }
  }

  lemma {:induction false} JoinContains(parts: seq<string>, c: char, i: nat, x: char)
    requires i < |parts| && x in parts[i]
    ensures x in Join(parts, c)
  {
    if i > 0 {
      JoinContains(parts[1..], c, i - 1, x);
    }
  }

  lemma DashIsNotAll(parts: seq<string>, i: nat)
    requires i < |parts| && '-' in parts[i]
    ensures !IsAll(Join(parts, ','))
  {
    JoinContains(parts, ',', i, '-');
  }

  lemma PointwiseSamePorts(p: seq<string>, q: seq<string>)
    requires |p| == |q| && p != [] && forall i | 0 <= i < |p| :: ParsePart(p[i]) == ParsePart(q[i])
    requires CommaFree(p) && CommaFree(q) && !IsAll(Join(p, ',')) && !IsAll(Join(q, ','))
    ensures PortsOf(Join(p, ',')) == PortsOf(Join(q, ','))
  {
    SplitJoin(p, ',');
    SplitJoin(q, ',');
    CollectPointwise(p, q);
  }

  lemma SwappedIsCommaFree(a: string, b: string)
    requires ',' !in a + "-" + b
    ensures ',' !in b + "-" + a
    ensures '-' in a + "-" + b
  {
    var s := a + "-" + b;
    assert a == s[..|a|] && b == s[|a| + 1..];
    assert s[|a|] == '-';
  }

  /** Swapping the ends of any range of a spec leaves the port list unchanged. */
  lemma SwapRangeEnds(parts: seq<string>, i: nat, a: string, b: string)
    requires CommaFree(parts) && i < |parts| && parts[i] == a + "-" + b
    ensures PortsOf(Join(parts, ',')) == PortsOf(Join(parts[i := b + "-" + a], ','))
  {
    var (part, part') := (parts[i], b + "-" + a);
    assert part in parts;
    SwappedIsCommaFree(a, b);
    SwappedIsCommaFree(b, a);
    RangeEndsSwap(a, b);
    DashIsNotAll(parts, i);
    DashIsNotAll(parts[i := part'], i);
    PointwiseSamePorts(parts, parts[i := part']);
  }

  lemma KeywordsAreNoPorts()
    ensures ParsePart("all") == None && ParsePart("*") == None
  {
    var (s, t) := ("all", "*");
    assert Trim(s) == s && Trim(t) == t;
    assert Decimal(s) == None && Decimal(t) == None;
  }

  /** The keywords are special only as the whole spec: as one of several parts they are malformed. */
  lemma AllIsNotAPart(spec: string, part: string)
    requires !IsAll(spec) && part in Split(spec, ',') && IsAll(part)
    ensures PortsOf(spec) == None
  {
    KeywordsAreNoPorts();
    var parts := Split(spec, ',');
    var i :| 0 <= i < |parts| && parts[i] == part;
    MalformedPart(parts, i);
  }

  /** `all` and `*` stand for every port. */
  lemma AllMeansEvery(spec: string, p: u16)
    requires IsAll(spec)
    ensures PortsOf(spec).Some? && Increasing(PortsOf(spec).value) && p in PortsOf(spec).value
  {
    EnumerateMember(Range(0, 0xFFFF), p);
  }

  // ---------- decimal notation ----------

  function Digit(n: nat): (c: char)
    requires n < 10
    ensures '0' <= c <= '9' && c as int == '0' as int + n
  {
    ('0' as int + n) as char
  }

  // A number as it is usually written.
  function Render(n: nat): (s: string)
    ensures s != [] && forall c <- s :: '0' <= c <= '9'
  {
    if n < 10 then [Digit(n)] else Render(n / 10) + [Digit(n % 10)]
  }

  lemma {:induction false} DecimalRender(n: nat)
    ensures Decimal(Render(n)) == Some(n)
  {
    var s := Render(n);
    if n < 10 {
      assert s[..|s| - 1] == [];
    } else {
      DecimalRender(n / 10);
      assert s[..|s| - 1] == Render(n / 10);
    }
  }

  lemma TrimDigits(s: string)
    requires s != [] && forall c <- s :: '0' <= c <= '9'
    ensures Trim(s) == s
  {
    assert s[0] in s && s[|s| - 1] in s;
  }

  lemma ParseRendered(p: u16)
    ensures ParseU16(Trim(Render(p))) == Some(p)
  {
    var s := Render(p);
    TrimDigits(s);
    DecimalRender(p);
    assert s[0] in s;
  }

  /** A port written in decimal parses to that port alone. */
  lemma SinglePort(p: u16)
    ensures PortsOf(Render(p)) == Some([p])
  {
    var s := Render(p);
    ParseRendered(p);
    assert ',' !in s && '-' !in s && '*' !in s && 'a' !in s;
    assert !IsAll(s) by {
      assert "all"[0] == 'a' && "*"[0] == '*';
      assert s[0] in s;
    }
    PortsAreUnion(s);
    assert Split(s, ',') == [s];
    assert ParsePart(s) == Some(Range(p, p));
    assert s in [s] && !Malformed(s);
    var ps := PortsOf(s).value;
    forall q: u16
      ensures q in ps <==> q in [p]
    {
      assert Covers(s, q) <==> q == p;
    }
    IncreasingIsUnique(ps, [p]);
  }

  // ---------- what a spec means, without the parser ----------

  // The characters with the Unicode White_Space property.
  const WHITE_SPACE :=
    "\t\n\U{000B}\U{000C}\r \U{0085}\U{00A0}\U{1680}\U{2000}\U{2001}\U{2002}\U{2003}\U{2004}\U{2005}\U{2006}\U{2007}\U{2008}\U{2009}\U{200A}\U{2028}\U{2029}\U{202F}\U{205F}\U{3000}"

  predicate Blank(s: string) { forall c <- s :: c in WHITE_SPACE }

  predicate Zeros(s: string) { forall i | 0 <= i < |s| :: s[i] == '0' }

  // Port `p` in decimal, perhaps behind a plus sign and zeros.
  ghost predicate Numeral(s: string, p: nat) {
    exists zeros: string :: Zeros(zeros) && (s == zeros + Render(p) || s == "+" + zeros + Render(p))
  }

  // The same with white space around it.
  ghost predicate Number(s: string, p: nat) {
    exists l: string, t: string, r: string :: Blank(l) && Blank(r) && s == l + t + r && Numeral(t, p)
  }

  // Two numbers around a dash stand for the ports from the smaller to the larger.
  ghost predicate Spans(part: string, a: string, b: string, lo: u16, hi: u16) {
    part == a + "-" + b && ((Number(a, lo) && Number(b, hi)) || (Number(a, hi) && Number(b, lo)))
  }

  // The part is written for the ports `lo` to `hi`: a single number, or a span.
  ghost predicate Denotes(part: string, lo: u16, hi: u16) {
    lo <= hi && ((lo == hi && Number(part, lo)) || exists a: string, b: string :: Spans(part, a, b, lo, hi))
  }

  lemma WhiteSpaceIff(c: char)
    ensures IsWhitespace(c) <==> c in WHITE_SPACE
  {
    var w := WHITE_SPACE;
    assert w[..] == w;
    assert |w| == 25;
    assert w[0] == '\t' && w[1] == '\n' && w[2] == '\U{000B}' && w[3] == '\U{000C}' && w[4] == '\r' && w[5] == ' ';
    assert w[6] == '\U{0085}' && w[7] == '\U{00A0}' && w[8] == '\U{1680}';
    assert w[9] == '\U{2000}' && w[10] == '\U{2001}' && w[11] == '\U{2002}' && w[12] == '\U{2003}' && w[13] == '\U{2004}';
    assert w[14] == '\U{2005}' && w[15] == '\U{2006}' && w[16] == '\U{2007}' && w[17] == '\U{2008}' && w[18] == '\U{2009}';
    assert w[19] == '\U{200A}' && w[20] == '\U{2028}' && w[21] == '\U{2029}' && w[22] == '\U{202F}' && w[23] == '\U{205F}';
    assert w[24] == '\U{3000}';
  }

  // ---------- numbers ----------

  predicate IsDigit(c: char) { '0' <= c <= '9' }

  lemma {:induction false} DecimalZeros(zeros: string)
    requires Zeros(zeros)
    ensures Decimal(zeros) == Some(0)
  {
    if zeros != [] {
      DecimalZeros(zeros[..|zeros| - 1]);
    }
  }

  lemma {:induction false} DecimalOf(zeros: string, n: nat)
    requires Zeros(zeros)
    ensures Decimal(zeros + Render(n)) == Some(n)
  {
    var s := zeros + Render(n);
    if n < 10 {
      assert s[..|s| - 1] == zeros;
      DecimalZeros(zeros);
    } else {
      DecimalOf(zeros, n / 10);
      assert s[..|s| - 1] == zeros + Render(n / 10);
    }
  }

  lemma RenderGrows(n: nat, d: char)
    requires IsDigit(d) && n > 0
    ensures Render(n * 10 + (d as int - '0' as int)) == Render(n) + [d]
  {
  }

  lemma {:induction false} DecimalShape(s: string, n: nat) returns (zeros: string)
    requires s != [] && Decimal(s) == Some(n)
    ensures Zeros(zeros) && s == zeros + Render(n)
  {
    var (front, d) := (s[..|s| - 1], s[|s| - 1]);
    assert s == front + [d];
    if front == [] {
      zeros := [];
      assert s == [d] && Render(n) == [d];
    } else {
      var v := Decimal(front).value;
      var zs := DecimalShape(front, v);
      if v == 0 {
        zeros := zs + ['0'];
        assert Render(0) == ['0'] && Render(n) == [d];
      } else {
        zeros := zs;
        RenderGrows(v, d);
        assert s == zs + (Render(v) + [d]);
      }
    }
  }

  lemma FirstDigit(zeros: string, p: nat)
    requires Zeros(zeros)
    ensures var t := zeros + Render(p); t != [] && IsDigit(t[0]) && IsDigit(t[|t| - 1])
  {
    var t := zeros + Render(p);
    var r := Render(p);
    assert r[0] in r && r[|r| - 1] in r && t[|t| - 1] == r[|r| - 1];
  }

  lemma ParsesNumeral(s: string, p: u16)
    requires Numeral(s, p)
    ensures ParseU16(s) == Some(p)
  {
    var zeros: string :| Zeros(zeros) && (s == zeros + Render(p) || s == "+" + zeros + Render(p));
    FirstDigit(zeros, p);
    DecimalOf(zeros, p);
    ParsesDigits(zeros + Render(p), p);
    Associative("+", zeros, Render(p));
  }

  lemma ParsesDigits(u: string, p: u16)
    requires u != [] && IsDigit(u[0]) && Decimal(u) == Some(p)
    ensures ParseU16(u) == Some(p) && ParseU16("+" + u) == Some(p)
  {
    assert ("+" + u)[1..] == u;
  }

  lemma ParsedIsNumeral(s: string, p: u16)
    requires ParseU16(s) == Some(p)
    ensures Numeral(s, p)
  {
    var digits := if s != [] && s[0] == '+' then s[1..] else s;
    var zeros := DecimalShape(digits, p);
    if s[0] == '+' {
      assert s == "+" + digits;
      assert s == "+" + zeros + Render(p);
    }
  }

  // ---------- white space ----------

  predicate White(s: string) { forall c <- s :: IsWhitespace(c) }

  lemma BlankIff(s: string)
    ensures Blank(s) <==> White(s)
  {
    forall c: char
      ensures IsWhitespace(c) <==> c in WHITE_SPACE
    {
      WhiteSpaceIff(c);
    }
  }

  // A text that trimming leaves alone.
  predicate Solid(t: string) { t != [] && !IsWhitespace(t[0]) && !IsWhitespace(t[|t| - 1]) }

  lemma {:induction false} TrimStartOf(l: string, u: string)
    requires White(l)
    ensures TrimStart(l + u) == TrimStart(u)
  {
    if l == [] {
      assert l + u == u;
    } else {
      assert l[0] in l;
      TrimStartOf(l[1..], u);
      assert (l + u)[1..] == l[1..] + u;
    }
  }

  lemma {:induction false} TrimEndOf(u: string, r: string)
    requires White(r)
    ensures TrimEnd(u + r) == TrimEnd(u)
  {
    if r == [] {
      assert u + r == u;
    } else {
      assert r[|r| - 1] in r;
      TrimEndOf(u, r[..|r| - 1]);
      assert (u + r)[..|u + r| - 1] == u + r[..|r| - 1];
    }
  }

  lemma TrimOf(l: string, t: string, r: string)
    requires White(l) && White(r) && Solid(t)
    ensures Trim(l + t + r) == t
  {
    assert l + t + r == l + (t + r);
    TrimStartOf(l, t + r);
    assert (t + r)[0] == t[0];
    TrimEndOf(t, r);
  }

  lemma {:induction false} TrimStartShape(s: string) returns (l: string)
    ensures White(l) && s == l + TrimStart(s)
  {
    if s != [] && IsWhitespace(s[0]) {
      var rest := TrimStartShape(s[1..]);
      l := [s[0]] + rest;
      Associative([s[0]], rest, TrimStart(s[1..]));
      assert s == [s[0]] + s[1..];
    } else {
      l := [];
    }
  }

  lemma {:induction false} TrimEndShape(s: string) returns (r: string)
    ensures White(r) && s == TrimEnd(s) + r
  {
    if s != [] && IsWhitespace(s[|s| - 1]) {
      var rest := TrimEndShape(s[..|s| - 1]);
      r := rest + [s[|s| - 1]];
      Associative(TrimEnd(s[..|s| - 1]), rest, [s[|s| - 1]]);
      SplitLast([], s);
    } else {
      r := [];
    }
  }

  lemma NumeralIsSolid(t: string, p: nat)
    requires Numeral(t, p)
    ensures Solid(t) && forall c <- t :: IsDigit(c) || c == '+'
    ensures exists c <- t :: IsDigit(c)
  {
    var zeros: string :| Zeros(zeros) && (t == zeros + Render(p) || t == "+" + zeros + Render(p));
    FirstDigit(zeros, p);
    var u := zeros + Render(p);
    assert t[|t| - 1] == u[|u| - 1];
    assert t[|t| - 1] in t;
  }

  /** A trimmed text parses as a port exactly if it is that port's decimal with white space around it. */
  lemma NumberIff(s: string, p: u16)
    ensures ParseU16(Trim(s)) == Some(p) <==> Number(s, p)
  {
    if ParseU16(Trim(s)) == Some(p) {
      ParsedIsNumeral(Trim(s), p);
      var l := TrimStartShape(s);
      var r := TrimEndShape(TrimStart(s));
      BlankIff(l);
      BlankIff(r);
      assert s == l + Trim(s) + r;
    }
    if Number(s, p) {
      var l, t, r := NumberShape(s, p);
      NumeralIsSolid(t, p);
      TrimOf(l, t, r);
      ParsesNumeral(t, p);
    }
  }

  // ---------- parts and specs ----------

  lemma NumberShape(s: string, p: nat) returns (l: string, t: string, r: string)
    requires Number(s, p)
    ensures White(l) && White(r) && s == l + t + r && Numeral(t, p)
  {
    l, t, r :| Blank(l) && Blank(r) && s == l + t + r && Numeral(t, p);
    BlankIff(l);
    BlankIff(r);
  }

  lemma WhiteIsPlain(s: string)
    requires White(s)
    ensures '-' !in s && ',' !in s
  {
  }

  lemma NumberIsPlain(s: string, p: nat)
    requires Number(s, p)
    ensures '-' !in s && ',' !in s && exists c <- s :: IsDigit(c)
  {
    var l, t, r := NumberShape(s, p);
    WhiteIsPlain(l);
    WhiteIsPlain(r);
    NumeralIsSolid(t, p);
    var c :| c in t && IsDigit(c);
    assert c in s;
  }

  lemma DashParses(a: string, b: string, x: u16, y: u16)
    requires '-' !in a && ParseU16(Trim(a)) == Some(x) && ParseU16(Trim(b)) == Some(y)
    ensures ParsePart(a + "-" + b) == Some(Range(Min(x, y), Max(x, y)))
  {
    var part := a + "-" + b;
    IndexAfter(a, '-', b);
    assert part[..|a|] == a && part[|a| + 1..] == b;
  }

  lemma NumbersParse(a: string, b: string, x: u16, y: u16)
    requires Number(a, x) && Number(b, y)
    ensures ParsePart(a + "-" + b) == Some(Range(Min(x, y), Max(x, y)))
  {
    NumberIsPlain(a, x);
    NumberIff(a, x);
    NumberIff(b, y);
    DashParses(a, b, x, y);
  }

  lemma SpanParses(part: string, a: string, b: string, lo: u16, hi: u16)
    requires Spans(part, a, b, lo, hi) && lo <= hi
    ensures ParsePart(part) == Some(Range(lo, hi))
  {
    if Number(a, lo) && Number(b, hi) {
      NumbersParse(a, b, lo, hi);
    } else {
      NumbersParse(a, b, hi, lo);
    }
  }

  lemma SpansHasDash(part: string, a: string, b: string, lo: u16, hi: u16)
    ensures Spans(part, a, b, lo, hi) ==> '-' in part
  {
    if part == a + "-" + b {
      assert part[|a|] == '-';
    }
  }

  lemma PlainDenotes(part: string, lo: u16, hi: u16)
    requires '-' !in part
    ensures Denotes(part, lo, hi) <==> lo == hi && Number(part, lo)
  {
    forall a: string, b: string
      ensures Spans(part, a, b, lo, hi) ==> '-' in part
    {
      SpansHasDash(part, a, b, lo, hi);
    }
  }

  lemma DashedDenotes(part: string, lo: u16, hi: u16)
    requires '-' in part && Denotes(part, lo, hi)
    ensures exists a: string, b: string :: Spans(part, a, b, lo, hi)
  {
    if Number(part, lo) {
      NumberIsPlain(part, lo);
    }
  }

  lemma ParsedDash(part: string, lo: u16, hi: u16)
    requires '-' in part && ParsePart(part) == Some(Range(lo, hi))
    ensures Denotes(part, lo, hi)
  {
    var i := IndexOf(part, '-');
    var (a, b) := (part[..i], part[i + 1..]);
    assert part == a + "-" + b;
    NumberIff(a, ParseU16(Trim(a)).value);
    NumberIff(b, ParseU16(Trim(b)).value);
    assert Spans(part, a, b, lo, hi);
  }

  /** A part parses as a range exactly if it is written for it. */
  lemma PartIff(part: string, lo: u16, hi: u16)
    ensures ParsePart(part) == Some(Range(lo, hi)) <==> Denotes(part, lo, hi)
  {
    if '-' !in part {
      NumberIff(part, lo);
      PlainDenotes(part, lo, hi);
    } else {
      if ParsePart(part) == Some(Range(lo, hi)) {
        ParsedDash(part, lo, hi);
      }
      if Denotes(part, lo, hi) {
        DashedDenotes(part, lo, hi);
        var a: string, b: string :| Spans(part, a, b, lo, hi);
        SpanParses(part, a, b, lo, hi);
      }
    }
  }

  ghost predicate Meaningful(part: string) { exists lo: u16, hi: u16 :: Denotes(part, lo, hi) }

  ghost predicate Reaches(part: string, p: u16) { exists lo: u16, hi: u16 :: Denotes(part, lo, hi) && lo <= p <= hi }

  lemma PartMeans(part: string, p: u16)
    ensures Malformed(part) <==> !Meaningful(part)
    ensures Covers(part, p) <==> Reaches(part, p)
  {
    if ParsePart(part).Some? {
      PartIff(part, ParsePart(part).value.first, ParsePart(part).value.last);
    }
    forall lo: u16, hi: u16 | Denotes(part, lo, hi)
      ensures ParsePart(part) == Some(Range(lo, hi))
    {
      PartIff(part, lo, hi);
    }
  }

  lemma SomeMalformedIff(parts: seq<string>)
    ensures (exists part <- parts :: Malformed(part)) <==> (exists part <- parts :: !Meaningful(part))
  {
    forall part <- parts
      ensures Malformed(part) <==> !Meaningful(part)
    {
      PartMeans(part, 0);
    }
  }

  lemma SomeCoversIff(parts: seq<string>, p: u16)
    ensures (exists part <- parts :: Covers(part, p)) <==> (exists part <- parts :: Reaches(part, p))
  {
    forall part <- parts
      ensures Covers(part, p) <==> Reaches(part, p)
    {
      PartMeans(part, p);
    }
  }

  // `ps` lists, in increasing order, the ports some part is written for.
  ghost predicate Lists(ps: seq<u16>, parts: seq<string>) {
    Increasing(ps) && forall p: u16 :: p in ps <==> exists part <- parts :: Reaches(part, p)
  }

  lemma UnionLists(ps: seq<u16>, parts: seq<string>)
    requires IsUnion(ps, parts)
    ensures Lists(ps, parts)
  {
    forall p: u16
      ensures p in ps <==> exists part <- parts :: Reaches(part, p)
    {
      SomeCoversIff(parts, p);
    }
  }

  /**
   What a spec means, told without the parser: no list exactly if some comma part is not
   written for any ports; otherwise the increasing list of the ports some part is written for.
   */
  lemma PortsMean(spec: string)
    requires !IsAll(spec)
    ensures PortsOf(spec) == None <==> exists part <- Split(spec, ',') :: !Meaningful(part)
    ensures PortsOf(spec).Some? ==> Lists(PortsOf(spec).value, Split(spec, ','))
  {
    PortsAreUnion(spec);
    SomeMalformedIff(Split(spec, ','));
    if PortsOf(spec).Some? {
      UnionLists(PortsOf(spec).value, Split(spec, ','));
    }
  }

  lemma DenotesIsPlain(part: string, lo: u16, hi: u16)
    requires Denotes(part, lo, hi)
    ensures ',' !in part && exists c <- part :: IsDigit(c)
  {
    if lo == hi && Number(part, lo) {
      NumberIsPlain(part, lo);
    } else {
      var a: string, b: string :| Spans(part, a, b, lo, hi);
      var (x, y) := if Number(a, lo) && Number(b, hi) then (lo, hi) else (hi, lo);
      NumberIsPlain(a, x);
      NumberIsPlain(b, y);
      var c :| c in a && IsDigit(c);
      assert c in part;
    }
  }

  // Every part is written for the range at its position.
  ghost predicate AllDenote(parts: seq<string>, rs: seq<Range>) {
    |parts| == |rs| && forall i | 0 <= i < |parts| :: Denotes(parts[i], rs[i].first, rs[i].last)
  }

  lemma AllParse(parts: seq<string>, rs: seq<Range>)
    requires AllDenote(parts, rs)
    ensures CommaFree(parts) && forall i | 0 <= i < |parts| :: ParsePart(parts[i]) == Some(rs[i])
  {
    forall i | 0 <= i < |parts|
      ensures ',' !in parts[i] && ParsePart(parts[i]) == Some(rs[i])
    {
      DenotesIsPlain(parts[i], rs[i].first, rs[i].last);
      PartIff(parts[i], rs[i].first, rs[i].last);
    }
  }

  lemma CoveredBySome(parts: seq<string>, rs: seq<Range>, p: u16)
    requires |parts| == |rs| && forall i | 0 <= i < |parts| :: ParsePart(parts[i]) == Some(rs[i])
    ensures (exists part <- parts :: Covers(part, p)) <==> exists i | 0 <= i < |rs| :: InRange(p, rs[i])
  {
    if i :| 0 <= i < |rs| && InRange(p, rs[i]) {
      assert parts[i] in parts && Covers(parts[i], p);
    }
  }

  /** A comma-separated list of parts written for ranges gives exactly the ports of these ranges. */
  lemma ListOfRanges(parts: seq<string>, rs: seq<Range>)
    requires parts != [] && AllDenote(parts, rs)
    ensures PortsOf(Join(parts, ',')).Some? && Increasing(PortsOf(Join(parts, ',')).value)
    ensures forall p: u16 :: p in PortsOf(Join(parts, ',')).value <==> exists i | 0 <= i < |rs| :: InRange(p, rs[i])
  {
    ListIsUnion(parts, rs);
    AllParse(parts, rs);
    var ps := PortsOf(Join(parts, ',')).value;
    forall p: u16
      ensures p in ps <==> exists i | 0 <= i < |rs| :: InRange(p, rs[i])
    {
      CoveredBySome(parts, rs, p);
    }
  }

  lemma ListIsUnion(parts: seq<string>, rs: seq<Range>)
    requires parts != [] && AllDenote(parts, rs)
    ensures PortsOf(Join(parts, ',')).Some? && IsUnion(PortsOf(Join(parts, ',')).value, parts)
  {
    AllParse(parts, rs);
    SplitJoin(parts, ',');
    DigitIsNotAll(parts, rs[0]);
    PortsAreUnion(Join(parts, ','));
    assert forall i | 0 <= i < |parts| :: !Malformed(parts[i]);
  }

  lemma DigitIsNotAll(parts: seq<string>, r: Range)
    requires parts != [] && Denotes(parts[0], r.first, r.last)
    ensures !IsAll(Join(parts, ','))
  {
    DenotesIsPlain(parts[0], r.first, r.last);
    var c :| c in parts[0] && IsDigit(c);
    JoinContains(parts, ',', 0, c);
  }

  lemma RenderedExamples()
    ensures Render(0) == "0" && Render(80) == "80" && Render(65535) == "65535"
  {
    assert Render(6) == "6" && Render(65) == "65" && Render(655) == "655" && Render(6553) == "6553";
  }

  lemma RenderIsNumber(p: nat)
    ensures Number(Render(p), p)
  {
    var t := Render(p);
    assert Zeros("") && t == "" + t;
    assert Numeral(t, p);
    assert Blank("") && t == "" + t + "";
  }

  /** Two ports around a dash give every port from the smaller to the larger. */
  lemma RangeOfPorts(a: u16, b: u16)
    ensures var spec := Render(a) + "-" + Render(b);
            PortsOf(spec).Some? && forall p: u16 :: p in PortsOf(spec).value <==> Min(a, b) <= p <= Max(a, b)
  {
    var spec := Render(a) + "-" + Render(b);
    RenderIsNumber(a);
    RenderIsNumber(b);
    var r := Range(Min(a, b), Max(a, b));
    assert Spans(spec, Render(a), Render(b), r.first, r.last);
    ListOfRanges([spec], [r]);
  }
}
