/** Route sets as text, a line for each route, and what is left of that text when its writing breaks off. */
module StateFile {
  import opened Wrappers
  import opened Text
  import opened Cidrs
  import opened HostInfos

  /** One line of the file: a prefix, and the id under which the nic it leaves through is registered. */
  datatype RouteKey = RouteKey(nic: PeerId, cidr: Cidr)

  // ---- prefixes as text -------------------------------------------------------------------------

  function Octets(a: Addr): seq<nat> {
    [a / 0x100_0000, a / 0x1_0000 % 0x100, a / 0x100 % 0x100, a % 0x100]
  }

  function ShowAddr(a: Addr): string {
    var o := Octets(a);
    Join([ShowNat(o[0]), ShowNat(o[1]), ShowNat(o[2]), ShowNat(o[3])], '.')
  }

  function ShowCidr(c: Cidr): string {
    Join([ShowAddr(c.address), ShowNat(c.prefixLen)], '/')
  }

  /** At most `maxDigits` digits, with a value below `limit`. */
  function ParseNumber(s: string, maxDigits: nat, limit: nat): Option<nat> {
    if |s| > maxDigits then None
    else match ParseDigits(s)
      case None => None
      case Some(n) => if n < limit then Some(n) else None
  }

  function ParseAddr(s: string): Option<Addr> {
    var parts := Split(s, '.');
    if |parts| != 4 then None
    else match (ParseNumber(parts[0], 3, 0x100), ParseNumber(parts[1], 3, 0x100),
                ParseNumber(parts[2], 3, 0x100), ParseNumber(parts[3], 3, 0x100))
      case (Some(a), Some(b), Some(c), Some(d)) => Some(AddrOf(a, b, c, d))
      case _ => None
  }

  function AddrOf(a: nat, b: nat, c: nat, d: nat): Addr
    requires a < 0x100 && b < 0x100 && c < 0x100 && d < 0x100
  {
    ((a * 0x100 + b) * 0x100 + c) * 0x100 + d
  }

  function ParseCidr(s: string): Option<Cidr> {
    var parts := Split(s, '/');
    if |parts| != 2 then None
    else match (ParseAddr(parts[0]), ParseNumber(parts[1], 2, 33))
      case (Some(address), Some(len)) => Some(Cidr(address, len))
      case _ => None
  }

  lemma ParseShowNumber(n: nat, maxDigits: nat, limit: nat)
    requires n < limit
    requires (maxDigits == 2 && limit <= 100) || (maxDigits == 3 && limit <= 1000)
    ensures ParseNumber(ShowNat(n), maxDigits, limit) == Some(n)
  {
    ParseShowDigits(n);
    assert n / 10 < 10 ==> |ShowNat(n / 10)| == 1;
    assert n / 10 >= 10 ==> n / 100 < 10 && |ShowNat(n / 10)| == 2;
  }

  lemma OctetsJoin(a: Addr)
    ensures var o := Octets(a);
            o[0] < 0x100 && o[1] < 0x100 && o[2] < 0x100 && o[3] < 0x100 && AddrOf(o[0], o[1], o[2], o[3]) == a
  {
    assert a / 0x100 == a / 0x1_0000 * 0x100 + a / 0x100 % 0x100;
    assert a / 0x1_0000 == a / 0x100_0000 * 0x100 + a / 0x1_0000 % 0x100;
  }

  lemma ParseShowAddr(a: Addr)
    ensures ParseAddr(ShowAddr(a)) == Some(a)
    ensures ShowAddr(a) != "" && forall ch | ch in ShowAddr(a) :: IsDigit(ch) || ch == '.'
  {
    var o := Octets(a);
    var octets := [ShowNat(o[0]), ShowNat(o[1]), ShowNat(o[2]), ShowNat(o[3])];
    OctetsJoin(a);
    SplitJoin(octets, '.');
    ParseShowNumber(o[0], 3, 0x100);
    ParseShowNumber(o[1], 3, 0x100);
    ParseShowNumber(o[2], 3, 0x100);
    ParseShowNumber(o[3], 3, 0x100);
    JoinChars(octets, '.');
    JoinCons(octets[0], octets[1..], '.');
    assert octets == [octets[0]] + octets[1..];
  }

  lemma ParseShowCidr(c: Cidr)
    ensures ParseCidr(ShowCidr(c)) == Some(c)
    ensures forall ch | ch in ShowCidr(c) :: IsDigit(ch) || ch in {'.', '/'}
    ensures ShowCidr(c) != ""
  {
    var quad, len := ShowAddr(c.address), ShowNat(c.prefixLen);
    ParseShowAddr(c.address);
    ParseShowNumber(c.prefixLen, 2, 33);
    SplitJoin([quad, len], '/');
    JoinPair(quad, len, '/');
  }

  lemma {:induction false} JoinChars(parts: seq<string>, sep: char)
    requires forall i | 0 <= i < |parts| :: forall ch | ch in parts[i] :: IsDigit(ch)
    ensures forall ch | ch in Join(parts, sep) :: IsDigit(ch) || ch == sep
  {
    if |parts| > 1 {
      JoinChars(parts[1..], sep);
    }
  }

  // ---- lines ----------------------------------------------------------------------------------------

  function ShowLine(key: RouteKey): string {
    ShowNat(key.nic) + [' '] + ShowCidr(key.cidr)
  }

  function ParseLine(line: string): Option<RouteKey> {
    if ' ' !in line then None
    else
      var i := IndexOf(line, ' ');
      match (ParseUnsigned(line[..i], 0x1_0000_0000), ParseCidr(line[i + 1..]))
      case (Some(nic), Some(cidr)) => Some(RouteKey(nic, cidr))
      case _ => None
  }

  lemma ParseShowLine(key: RouteKey)
    ensures ParseLine(ShowLine(key)) == Some(key)
  {
    var nic, cidr := ShowNat(key.nic), ShowCidr(key.cidr);
    ParseShowUnsigned(key.nic, 0x1_0000_0000);
    ParseShowCidr(key.cidr);
    IndexOfPrefix(nic, cidr, ' ');
    Halves(nic, cidr, ' ');
  }

  lemma EndsOfLine(nic: string, cidr: string)
    requires nic != "" && forall ch | ch in nic :: IsDigit(ch)
    requires cidr != "" && forall ch | ch in cidr :: IsDigit(ch) || ch in {'.', '/'}
    ensures var line := nic + [' '] + cidr;
            line != "" && !IsSpace(line[0]) && !IsSpace(line[|line| - 1]) && '\n' !in line
  {
    var line := nic + [' '] + cidr;
    assert line[0] == nic[0] && nic[0] in nic;
    assert line[|line| - 1] == cidr[|cidr| - 1] && cidr[|cidr| - 1] in cidr;
    assert '\n' !in nic && '\n' !in cidr;
  }

  /** A shown line is one line, and trimming leaves it alone. */
  lemma LineIsTrimmed(key: RouteKey)
    ensures Trim(ShowLine(key)) == ShowLine(key) && '\n' !in ShowLine(key)
  {
    var nic, cidr := ShowNat(key.nic), ShowCidr(key.cidr);
    ParseShowCidr(key.cidr);
    EndsOfLine(nic, cidr);
    TrimKeeps(ShowLine(key));
  }

  /** The body `persist` writes: every line ends in a newline. */
  function Render(keys: seq<RouteKey>): string {
    if keys == [] then "" else ShowLine(keys[0]) + ['\n'] + Render(keys[1..])
  }

  /** What one line of the file contributes; blank and bad lines contribute nothing. */
  function LineKeys(line: string): set<RouteKey> {
    match ParseLine(Trim(line))
    case Some(key) => {key}
    case None => {}
  }

  function LinesKeys(lines: seq<string>): set<RouteKey> {
    if lines == [] then {} else LineKeys(lines[0]) + LinesKeys(lines[1..])
  }

  function ParseState(content: string): set<RouteKey> {
    LinesKeys(Split(content, '\n'))
  }

  function LinesOf(keys: seq<RouteKey>, last: string): (lines: seq<string>)
    ensures |lines| == |keys| + 1
  {
    if keys == [] then [last] else [ShowLine(keys[0])] + LinesOf(keys[1..], last)
  }

  lemma {:induction false} RenderIsJoin(keys: seq<RouteKey>, last: string)
    requires '\n' !in last
    ensures Render(keys) + last == Join(LinesOf(keys, last), '\n') && Free(LinesOf(keys, last), '\n')
  {
    if keys != [] {
      var line, rest := ShowLine(keys[0]), LinesOf(keys[1..], last);
      RenderIsJoin(keys[1..], last);
      LineIsTrimmed(keys[0]);
      JoinCons(line, rest, '\n');
      FreeCons(line, rest, '\n');
      assert line + ['\n'] + Render(keys[1..]) + last == line + ['\n'] + (Render(keys[1..]) + last);
    }
  }

  lemma LinesKeysCons(line: string, lines: seq<string>)
    ensures LinesKeys([line] + lines) == LineKeys(line) + LinesKeys(lines)
  {
    assert ([line] + lines)[1..] == lines;
  }

  lemma {:induction false} LinesRoundTrip(keys: seq<RouteKey>, last: string)
    ensures LinesKeys(LinesOf(keys, last)) == (set k | k in keys) + LineKeys(last)
  {
    if keys == [] {
      LinesKeysCons(last, []);
      assert [last] + [] == [last];
    } else {
      LinesRoundTrip(keys[1..], last);
      LinesKeysCons(ShowLine(keys[0]), LinesOf(keys[1..], last));
      LineNamesItsKey(keys[0]);
      ElementsCons(keys);
      AddSets({keys[0]}, (set k | k in keys[1..]), LineKeys(last));
    }
  }

  lemma LineNamesItsKey(key: RouteKey)
    ensures LineKeys(ShowLine(key)) == {key}
  {
    ParseShowLine(key);
    LineIsTrimmed(key);
  }

  lemma ElementsCons<T>(s: seq<T>)
    requires s != []
    ensures (set x | x in s) == {s[0]} + set x | x in s[1..]
  {
    assert s == [s[0]] + s[1..];
  }

  lemma AddSets<T>(a: set<T>, b: set<T>, c: set<T>)
    ensures a + (b + c) == a + b + c
  {
  }

  /** Whole lines and a last one without its newline are read as the routes of the lines and what the last one says. */
  lemma ParseRendered(keys: seq<RouteKey>, last: string)
    requires '\n' !in last
    ensures ParseState(Render(keys) + last) == (set k | k in keys) + LineKeys(last)
  {
    RenderIsJoin(keys, last);
    SplitJoin(LinesOf(keys, last), '\n');
    LinesRoundTrip(keys, last);
  }

  /** Parsing the text written for any listing of a route set gives the set back. */
  lemma StateRoundTrip(keys: seq<RouteKey>)
    ensures ParseState(Render(keys)) == set k | k in keys
  {
    ParseRendered(keys, "");
    assert Render(keys) + "" == Render(keys);
    assert LineKeys("") == {};
  }

  // ---- torn files ---------------------------------------------------------------------------------

  /** A text that breaks off after `n` characters is some whole lines, in their order, and a part of the next. */
  lemma {:induction false} TornText(keys: seq<RouteKey>, n: nat) returns (whole: seq<RouteKey>, cut: string)
    requires n <= |Render(keys)|
    ensures whole <= keys && '\n' !in cut && Render(keys)[..n] == Render(whole) + cut
    ensures if whole == keys then cut == "" else cut <= ShowLine(keys[|whole|])
  {
    if keys == [] {
      whole, cut := [], "";
    } else {
      var line, tail := ShowLine(keys[0]), Render(keys[1..]);
      LineIsTrimmed(keys[0]);
      CutPair(line, tail, '\n', n);
      if n <= |line| {
        whole, cut := [], line[..n];
      } else {
        var w;
        w, cut := TornText(keys[1..], n - |line| - 1);
        whole := [keys[0]] + w;
        RenderCons(keys[0], w);
        assert keys == [keys[0]] + keys[1..];
      }
    }
  }

  lemma RenderCons(key: RouteKey, keys: seq<RouteKey>)
    ensures Render([key] + keys) == ShowLine(key) + ['\n'] + Render(keys)
  {
    assert ([key] + keys)[1..] == keys;
  }

  /** The route that a line names once its last digit is missing. */
  function Wider(key: RouteKey): RouteKey {
    RouteKey(key.nic, Cidr(key.cidr.address, key.cidr.prefixLen / 10))
  }

  /** Whether the first `n` characters of a line lack just one digit of a prefix length that has two. */
  predicate ReadsWider(key: RouteKey, n: nat) {
    key.cidr.prefixLen >= 10 && n == |ShowLine(key)| - 1
  }

  function SaidBy(key: RouteKey, n: nat): set<RouteKey> {
    if n == |ShowLine(key)| then {key} else if ReadsWider(key, n) then {Wider(key)} else {}
  }

  lemma CutDigits(p: PrefixLen, j: nat)
    requires j < |ShowNat(p)|
    ensures ParseNumber(ShowNat(p)[..j], 2, 33) == if p >= 10 && j == |ShowNat(p)| - 1 then Some(p / 10) else None
  {
    if p >= 10 {
      assert |ShowNat(p / 10)| == 1 && ShowNat(p)[..1] == ShowNat(p / 10);
      ParseShowNumber(p / 10, 2, 33);
    }
  }

  lemma CutInsideAddr(c: Cidr, m: nat)
    requires m <= |ShowAddr(c.address)|
    ensures ParseCidr(ShowAddr(c.address)[..m]) == None
  {
    ParseShowAddr(c.address);
    assert '/' !in ShowAddr(c.address);
    NoCidrWithoutSlash(ShowAddr(c.address)[..m]);
  }

  lemma NoCidrWithoutSlash(s: string)
    requires '/' !in s
    ensures ParseCidr(s) == None
  {
    assert Split(s, '/') == [s];
  }

  lemma CutInsideLength(c: Cidr, j: nat)
    requires j < |ShowNat(c.prefixLen)|
    ensures ParseCidr(ShowAddr(c.address) + ['/'] + ShowNat(c.prefixLen)[..j]) ==
            if c.prefixLen >= 10 && j == |ShowNat(c.prefixLen)| - 1 then Some(Cidr(c.address, c.prefixLen / 10)) else None
  {
    var quad, part := ShowAddr(c.address), ShowNat(c.prefixLen)[..j];
    ParseShowAddr(c.address);
    JoinPair(quad, part, '/');
    SplitJoin([quad, part], '/');
    CutDigits(c.prefixLen, j);
  }

  /** A prefix that is cut short is none, or the wider one. */
  lemma CutCidr(c: Cidr, m: nat)
    requires m < |ShowCidr(c)|
    ensures ParseCidr(ShowCidr(c)[..m]) ==
            if c.prefixLen >= 10 && m == |ShowCidr(c)| - 1 then Some(Cidr(c.address, c.prefixLen / 10)) else None
  {
    var quad, len := ShowAddr(c.address), ShowNat(c.prefixLen);
    JoinPair(quad, len, '/');
    CutPair(quad, len, '/', m);
    if m <= |quad| {
      CutInsideAddr(c, m);
    } else {
      CutInsideLength(c, m - |quad| - 1);
    }
  }

  lemma CutPair(head: string, tail: string, sep: char, m: nat)
    requires m <= |head| + 1 + |tail|
    ensures (head + [sep] + tail)[..m] == if m <= |head| then head[..m] else head + [sep] + tail[..m - |head| - 1]
  {
  }

  /** Digits, with a space after them or not, are no line. */
  lemma DigitsAreNoLine(s: string)
    requires forall ch | ch in s :: IsDigit(ch)
    ensures LineKeys(s) == {} && LineKeys(s + [' ']) == {}
  {
    if s != "" {
      assert IsDigit(s[0]) && IsDigit(s[|s| - 1]);
      TrimKeeps(s);
      TrimLast(s);
    } else {
      assert [' '][1..] == [] && s + [' '] == [' '];
    }
  }

  lemma TrimLast(s: string)
    requires s != "" && !IsSpace(s[0])
    ensures Trim(s + [' ']) == Trim(s)
  {
    assert (s + [' '])[..|s|] == s;
  }

  lemma CutInsideNic(key: RouteKey, n: nat)
    requires n <= |ShowNat(key.nic)| + 1
    ensures LineKeys(ShowLine(key)[..n]) == {}
  {
    var nic := ShowNat(key.nic);
    CutPair(nic, ShowCidr(key.cidr), ' ', n);
    if n <= |nic| {
      assert forall ch | ch in nic[..n] :: ch in nic;
      DigitsAreNoLine(nic[..n]);
    } else {
      DigitsAreNoLine(nic);
      assert nic + [' '] + ShowCidr(key.cidr)[..0] == nic + [' '];
    }
  }

  /** A line that is cut short says nothing, or names the wider route. */
  lemma CutLineSays(key: RouteKey, n: nat)
    requires n < |ShowLine(key)|
    ensures LineKeys(ShowLine(key)[..n]) == if ReadsWider(key, n) then {Wider(key)} else {}
  {
    var nic, cidr := ShowNat(key.nic), ShowCidr(key.cidr);
    if n <= |nic| + 1 {
      CutInsideNic(key, n);
      JoinPair(ShowAddr(key.cidr.address), ShowNat(key.cidr.prefixLen), '/');
    } else {
      var part := cidr[..n - |nic| - 1];
      var cut := nic + [' '] + part;
      CutPair(nic, cidr, ' ', n);
      ParseShowCidr(key.cidr);
      EndsOfLine(nic, part);
      TrimKeeps(cut);
      IndexOfPrefix(nic, part, ' ');
      Halves(nic, part, ' ');
      ParseShowUnsigned(key.nic, 0x1_0000_0000);
      CutCidr(key.cidr, |part|);
    }
  }

  /**
   A file whose writing broke off gives back the routes of its whole lines, and of
   the next line the route itself if only its newline is missing, or a wider one
   if one digit of two is. So what is restored was persisted, unless that wider
   route was not.
   */
  lemma TornState(keys: seq<RouteKey>, n: nat) returns (whole: seq<RouteKey>, cut: string)
    requires n <= |Render(keys)|
    ensures whole <= keys && Render(keys)[..n] == Render(whole) + cut
    ensures if whole == keys then cut == "" else cut <= ShowLine(keys[|whole|])
    ensures ParseState(Render(keys)[..n]) ==
            (set k | k in whole) + if whole == keys then {} else SaidBy(keys[|whole|], |cut|)
    ensures ParseState(Render(keys)[..n]) <= (set k | k in keys) <==>
            (whole != keys && ReadsWider(keys[|whole|], |cut|) ==> Wider(keys[|whole|]) in keys)
  {
    whole, cut := TornText(keys, n);
    ParseRendered(whole, cut);
    if whole == keys {
      assert LineKeys("") == {};
    } else {
      CutSays(keys[|whole|], cut);
    }
    assert forall k | k in whole :: k in keys;
  }

  lemma CutSays(key: RouteKey, cut: string)
    requires cut <= ShowLine(key)
    ensures LineKeys(cut) == SaidBy(key, |cut|)
  {
    if |cut| < |ShowLine(key)| {
      CutLineSays(key, |cut|);
      assert cut == ShowLine(key)[..|cut|];
    } else {
      LineNamesItsKey(key);
      assert cut == ShowLine(key);
    }
  }

  lemma JoinPair(a: string, b: string, sep: char)
    ensures Join([a, b], sep) == a + [sep] + b
  {
    assert [a, b][1..] == [b];
  }
}
