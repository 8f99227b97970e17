/** The order in which servers are listed, by eight fields, and sorting by it. */
module ServerOrder {

  /** A server; the fields that take part neither in the order nor in the key are one value. */
  datatype Server = Server(
    vpn: string, country: string, region: string, city: string, isp: string, number: nat, serverName: string,
    hostname: string, tcp: bool, udp: bool, keep: bool, others: int)

  /** Strings compare by their first difference, and a prefix comes first. */
  predicate StringLess(a: string, b: string) {
    if a == "" then b != ""
    else if b == "" then false
    else if a[0] == b[0] then StringLess(a[1..], b[1..])
    else a[0] < b[0]
  }

  lemma {:induction false} StringLessTotal(a: string, b: string)
    ensures !(StringLess(a, b) && StringLess(b, a))
    ensures a != b ==> StringLess(a, b) || StringLess(b, a)
    ensures a == b ==> !StringLess(a, b)
  {
    if a != "" && b != "" {
      StringLessTotal(a[1..], b[1..]);
      assert a == [a[0]] + a[1..] && b == [b[0]] + b[1..];
    }
  }

  /** A text is less than another one if it begins it, or has the smaller character where they first differ. */
  ghost predicate ComesFirst(a: string, b: string) {
    || a < b
    || exists i :: 0 <= i < |a| && i < |b| && a[..i] == b[..i] && a[i] < b[i]
  }

  lemma FirstAfterSame(a: string, b: string)
    requires a != "" && b != "" && a[0] == b[0]
    ensures ComesFirst(a, b) <==> ComesFirst(a[1..], b[1..])
  {
    var x, y := a[1..], b[1..];
    assert a == [a[0]] + x && b == [b[0]] + y;
    if i :| 0 <= i < |a| && i < |b| && a[..i] == b[..i] && a[i] < b[i] {
      assert x[..i - 1] == a[..i][1..] && y[..i - 1] == b[..i][1..];
      assert x[i - 1] < y[i - 1];
    }
    if i :| 0 <= i < |x| && i < |y| && x[..i] == y[..i] && x[i] < y[i] {
      assert a[..i + 1] == [a[0]] + x[..i] && b[..i + 1] == [b[0]] + y[..i];
      assert a[i + 1] < b[i + 1];
    }
  }

  lemma FirstByFirst(a: string, b: string)
    requires a != "" && b != "" && a[0] != b[0]
    ensures ComesFirst(a, b) <==> a[0] < b[0]
  {
    if a[0] < b[0] {
      assert a[..0] == b[..0];
    }
  }

  lemma {:induction false} StringLessIff(a: string, b: string)
    ensures StringLess(a, b) <==> ComesFirst(a, b)
  {
    if a != "" && b != "" {
      if a[0] == b[0] {
        FirstAfterSame(a, b);
        StringLessIff(a[1..], b[1..]);
      } else {
        FirstByFirst(a, b);
      }
      hide ComesFirst;
    }
  }

  lemma {:induction false} StringLessTransitive(a: string, b: string, c: string)
    requires StringLess(a, b) && StringLess(b, c)
    ensures StringLess(a, c)
  {
    if a != "" && a[0] == b[0] == c[0] {
      StringLessTransitive(a[1..], b[1..], c[1..]);
    }
  }

  predicate Less(a: Server, b: Server) {
    if a.country == b.country then
      if a.region == b.region then
        if a.city == b.city then
          if a.serverName == b.serverName then
            if a.number == b.number then
              if a.hostname == b.hostname then
                if a.isp == b.isp then StringLess(a.vpn, b.vpn)
                else StringLess(a.isp, b.isp)
              else StringLess(a.hostname, b.hostname)
            else a.number < b.number
          else StringLess(a.serverName, b.serverName)
        else StringLess(a.city, b.city)
      else StringLess(a.region, b.region)
    else StringLess(a.country, b.country)
  }

  datatype SortKey = Text(text: string) | Number(number: nat)

  /** The fields that servers are sorted by, the most important one first. */
  ghost function SortKeys(s: Server): (keys: seq<SortKey>)
    ensures |keys| == 8
  {
    [Text(s.country), Text(s.region), Text(s.city), Text(s.serverName), Number(s.number), Text(s.hostname), Text(s.isp),
     Text(s.vpn)]
  }

  ghost predicate SmallerKey(a: SortKey, b: SortKey) {
    if a.Text? && b.Text? then ComesFirst(a.text, b.text) else a.Number? && b.Number? && a.number < b.number
  }

  /** The first field in which two servers differ decides, the smaller value coming first. */
  lemma LessIff(a: Server, b: Server)
    ensures Less(a, b) <==> exists k :: 0 <= k < 8 && SortKeys(a)[..k] == SortKeys(b)[..k]
                                        && SmallerKey(SortKeys(a)[k], SortKeys(b)[k])
  {
    var x, y := SortKeys(a), SortKeys(b);
    LessByKeys(a, b);
    hide Less, SortKeys;
    if Less(a, b) {
      var k :| 0 <= k < 8 && (forall i :: 0 <= i < k ==> x[i] == y[i]) && SmallerKey(x[k], y[k]);
      assert x[..k] == y[..k];
    }
    if k :| 0 <= k < 8 && x[..k] == y[..k] && SmallerKey(x[k], y[k]) {
      forall i | 0 <= i < k ensures x[i] == y[i] {
        assert x[..k][i] == y[..k][i];
      }
    }
  }

  /** The first field that differs. */
  ghost predicate DifferFirstAt(x: seq<SortKey>, y: seq<SortKey>, d: nat) {
    d < |x| && d < |y| && x[d] != y[d] && forall i :: 0 <= i < d ==> x[i] == y[i]
  }

  lemma FirstDifferenceDecides(a: Server, b: Server, d: nat)
    requires DifferFirstAt(SortKeys(a), SortKeys(b), d)
    ensures Less(a, b) <==> SmallerKey(SortKeys(a)[d], SortKeys(b)[d])
  {
    hide StringLess, ComesFirst;
    StringLessIff(a.country, b.country);
    StringLessIff(a.region, b.region);
    StringLessIff(a.city, b.city);
    StringLessIff(a.serverName, b.serverName);
    StringLessIff(a.hostname, b.hostname);
    StringLessIff(a.isp, b.isp);
    StringLessIff(a.vpn, b.vpn);
    var x, y := SortKeys(a), SortKeys(b);
    assert x[0] == Text(a.country) && x[1] == Text(a.region) && x[2] == Text(a.city) && x[3] == Text(a.serverName);
    assert x[4] == Number(a.number) && x[5] == Text(a.hostname) && x[6] == Text(a.isp) && x[7] == Text(a.vpn);
    assert y[0] == Text(b.country) && y[1] == Text(b.region) && y[2] == Text(b.city) && y[3] == Text(b.serverName);
    assert y[4] == Number(b.number) && y[5] == Text(b.hostname) && y[6] == Text(b.isp) && y[7] == Text(b.vpn);
    assert d == 0 || d == 1 || d == 2 || d == 3 || d == 4 || d == 5 || d == 6 || d == 7;
  }

  lemma NotSmaller(a: SortKey)
    ensures !SmallerKey(a, a)
  {
    if a.Text? {
      StringLessTotal(a.text, a.text);
      StringLessIff(a.text, a.text);
    }
  }

  lemma SameKeysNotLess(a: Server, b: Server)
    requires SortKeys(a) == SortKeys(b)
    ensures !Less(a, b)
  {
    assert SortKeys(a)[0] == Text(a.country) && SortKeys(b)[0] == Text(b.country);
    LessIsAsymmetric(a, b);
  }

  lemma LessByKeys(a: Server, b: Server)
    ensures var x, y := SortKeys(a), SortKeys(b);
            Less(a, b) <==> exists k :: 0 <= k < 8 && (forall i :: 0 <= i < k ==> x[i] == y[i]) && SmallerKey(x[k], y[k])
  {
    hide Less, SortKeys, SmallerKey;
    var x, y := SortKeys(a), SortKeys(b);
    var d := 0;
    while d < 8 && x[d] == y[d]
      invariant d <= 8 && forall i :: 0 <= i < d ==> x[i] == y[i]
    {
      d := d + 1;
    }
    forall k | 0 <= k < d ensures !SmallerKey(x[k], y[k]) {
      NotSmaller(x[k]);
    }
    if d < 8 {
      FirstDifferenceDecides(a, b, d);
    } else {
      assert x == y;
      SameKeysNotLess(a, b);
    }
  }

  ghost predicate SameSortKeys(a: Server, b: Server) {
    && a.country == b.country && a.region == b.region && a.city == b.city && a.serverName == b.serverName
    && a.number == b.number && a.hostname == b.hostname && a.isp == b.isp && a.vpn == b.vpn
  }

  /** Servers are incomparable exactly when all eight fields agree, and never less than each other. */
  lemma LessIsAsymmetric(a: Server, b: Server)
    ensures !(Less(a, b) && Less(b, a))
    ensures !Less(a, b) && !Less(b, a) <==> SameSortKeys(a, b)
  {
    hide StringLess;
    StringLessTotal(a.country, b.country);
    StringLessTotal(a.region, b.region);
    StringLessTotal(a.city, b.city);
    StringLessTotal(a.serverName, b.serverName);
    StringLessTotal(a.hostname, b.hostname);
    StringLessTotal(a.isp, b.isp);
    StringLessTotal(a.vpn, b.vpn);
  }

  lemma StringsInOrder(a: string, b: string, c: string)
    ensures StringLess(a, b) && StringLess(b, c) ==> StringLess(a, c)
    ensures StringLess(a, b) ==> a != b
    ensures StringLess(a, b) && StringLess(b, c) ==> a != c
  {
    StringLessTotal(a, b);
    StringLessTotal(a, c);
    if StringLess(a, b) && StringLess(b, c) {
      StringLessTransitive(a, b, c);
    }
  }

  lemma LessIsTransitive(a: Server, b: Server, c: Server)
    requires Less(a, b) && Less(b, c)
    ensures Less(a, c)
  {
    hide StringLess;
    StringsInOrder(a.country, b.country, c.country);
    StringsInOrder(a.region, b.region, c.region);
    StringsInOrder(a.city, b.city, c.city);
    StringsInOrder(a.serverName, b.serverName, c.serverName);
    StringsInOrder(a.hostname, b.hostname, c.hostname);
    StringsInOrder(a.isp, b.isp, c.isp);
    StringsInOrder(a.vpn, b.vpn, c.vpn);
  }

  /** The order is a strict weak one: not being less is transitive too. */
  lemma NotLessIsTransitive(a: Server, b: Server, c: Server)
    requires !Less(b, a) && !Less(c, b)
    ensures !Less(c, a)
  {
    hide Less;
    LessIsAsymmetric(a, b);
    LessIsAsymmetric(b, c);
    LessIsAsymmetric(a, c);
    if Less(c, a) {
      if Less(a, b) {
        LessIsTransitive(c, a, b);
      } else if Less(b, c) {
        LessIsTransitive(b, c, a);
      }
    }
  }

  // ----------------------------------------------------------------- sorting

  ghost predicate Sorted(s: seq<Server>) {
    forall i, j :: 0 <= i < j < |s| ==> !Less(s[j], s[i])
  }

  ghost predicate SameServers(s: seq<Server>, t: seq<Server>) {
    multiset(s) == multiset(t)
  }

  lemma InsertSorted(s: seq<Server>, p: nat, x: Server)
    requires Sorted(s) && p <= |s|
    requires forall i :: 0 <= i < p ==> !Less(x, s[i])
    requires forall j :: p <= j < |s| ==> !Less(s[j], x)
    ensures Sorted(s[..p] + [x] + s[p..])
    ensures multiset(s[..p] + [x] + s[p..]) == multiset(s) + multiset{x}
  {
    hide Less;
    assert s == s[..p] + s[p..];
  }

  /** Any servers can be listed in order. */
  lemma {:induction false} SortedList(m: multiset<Server>) returns (s: seq<Server>)
    ensures Sorted(s) && multiset(s) == m
    decreases |m|
  {
    if m == multiset{} {
      s := [];
    } else {
      hide Less, Sorted;
      var x :| x in m;
      var rest := SortedList(m - multiset{x});
      var p := 0;
      while p < |rest| && !Less(x, rest[p])
        invariant p <= |rest| && forall i :: 0 <= i < p ==> !Less(x, rest[i])
      {
        p := p + 1;
      }
      forall j | p <= j < |rest| ensures !Less(rest[j], x) {
        StaysBehind(rest, p, j, x);
      }
      InsertSorted(rest, p, x);
      s := rest[..p] + [x] + rest[p..];
    }
  }

  lemma StaysBehind(s: seq<Server>, p: nat, j: nat, x: Server)
    requires Sorted(s) && p <= j < |s| && Less(x, s[p])
    ensures !Less(s[j], x)
  {
    hide Less;
    if Less(s[j], x) {
      LessIsTransitive(s[j], x, s[p]);
      LessIsAsymmetric(x, s[p]);
    }
  }

  method Swap(a: array<Server>, i: nat, j: nat)
    requires i < a.Length && j < a.Length
    modifies a
    ensures a[..] == old(a[..])[i := old(a[j])][j := old(a[i])] && SameServers(a[..], old(a[..]))
  {
    a[i], a[j] := a[j], a[i];
  }

  /** Sorted, were it not for the entry at j, which may belong further to the left. */
  ghost predicate SortedBut(s: seq<Server>, n: nat, j: nat) {
    && j <= n < |s|
    && forall i, k :: 0 <= i < k <= n && k != j ==> !Less(s[k], s[i])
  }

  lemma SortedUpTo(s: seq<Server>, n: nat)
    requires n < |s| && Sorted(s[..n])
    ensures SortedBut(s, n, n)
  {
    hide Less;
    forall i, k | 0 <= i < k <= n && k != n ensures !Less(s[k], s[i]) {
      assert s[k] == s[..n][k] && s[i] == s[..n][i];
    }
  }

  lemma SwapLeft(s: seq<Server>, n: nat, j: nat)
    requires SortedBut(s, n, j) && 0 < j && Less(s[j], s[j - 1])
    ensures SortedBut(s[j := s[j - 1]][j - 1 := s[j]], n, j - 1)
  {
    hide Less;
    var t := s[j := s[j - 1]][j - 1 := s[j]];
    LessIsAsymmetric(s[j], s[j - 1]);
    forall i, k | 0 <= i < k <= n && k != j - 1 ensures !Less(t[k], t[i]) {
      if k == j {
        assert i == j - 1 || !Less(s[j - 1], s[i]);
      }
    }
  }

  lemma SwapStops(s: seq<Server>, n: nat, j: nat)
    requires SortedBut(s, n, j) && (0 < j ==> !Less(s[j], s[j - 1]))
    ensures Sorted(s[..n + 1])
  {
    hide Less;
    forall i, k | 0 <= i < k < n + 1 ensures !Less(s[k], s[i]) {
      if k == j && i < j - 1 {
        NotLessIsTransitive(s[i], s[j - 1], s[j]);
      }
    }
  }

  /** Sorting by Less and Swap; the order of servers with the same sort keys is not settled. */
  method Sort(a: array<Server>)
    modifies a
    ensures Sorted(a[..]) && SameServers(a[..], old(a[..]))
  {
    hide Less, Sorted, SortedBut, SameServers;
    SortedAtFirst(a[..]);
    for n := 0 to a.Length
      invariant Sorted(a[..n]) && SameServers(a[..], old(a[..]))
    {
      var j := n;
      SortedUpTo(a[..], n);
      assert a[..][..n] == a[..n];
      while j > 0 && Less(a[j], a[j - 1])
        invariant j <= n && SortedBut(a[..], n, j) && SameServers(a[..], old(a[..]))
      {
        ghost var before := a[..];
        SwapLeft(before, n, j);
        Swap(a, j, j - 1);
        SameTwice(a[..], before, old(a[..]));
        j := j - 1;
      }
      SwapStops(a[..], n, j);
      assert a[..][..n + 1] == a[..n + 1];
    }
    assert a[..a.Length] == a[..];
  }

  lemma SortedAtFirst(s: seq<Server>)
    ensures Sorted(s[..0]) && SameServers(s, s)
  {
  }

  lemma SameTwice(s: seq<Server>, t: seq<Server>, u: seq<Server>)
    requires SameServers(s, t) && SameServers(t, u)
    ensures SameServers(s, u)
  {
  }
}
