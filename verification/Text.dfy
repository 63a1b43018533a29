/** The text primitives the printers and parsers share: decimals, splitting and joining. */
module Text {
  import opened Wrappers

  // ---- decimals -----------------------------------------------------------------------------

  predicate IsDigit(ch: char) { '0' <= ch <= '9' }

  function ShowNat(n: nat): (s: string)
    ensures s != "" && forall ch | ch in s :: IsDigit(ch)
  {
    var digit := ('0' as int + n % 10) as char;
    if n < 10 then [digit] else ShowNat(n / 10) + [digit]
  }

  /** One or more digits, and nothing else. */
  function ParseDigits(s: string): Option<nat> {
    if s == "" || !IsDigit(s[|s| - 1]) then None
    else
      var digit := s[|s| - 1] as int - '0' as int;
      if |s| == 1 then Some(digit)
      else match ParseDigits(s[..|s| - 1])
        case None => None
        case Some(high) => Some(10 * high + digit)
  }

  /** An unsigned integer below `limit`, with an optional plus sign. */
  function ParseUnsigned(s: string, limit: nat): Option<nat> {
    match ParseDigits(if s != "" && s[0] == '+' then s[1..] else s)
    case Some(n) => if n < limit then Some(n) else None
    case None => None
  }

  lemma {:induction false} ParseShowDigits(n: nat)
    ensures ParseDigits(ShowNat(n)) == Some(n)
  {
    if n >= 10 {
      ParseShowDigits(n / 10);
      var s := ShowNat(n);
      assert s[..|s| - 1] == ShowNat(n / 10);
    }
  }

  lemma ParseShowUnsigned(n: nat, limit: nat)
    requires n < limit
    ensures ParseUnsigned(ShowNat(n), limit) == Some(n)
  {
    ParseShowDigits(n);
    assert IsDigit(ShowNat(n)[0]);
  }

  // ---- splitting and joining -------------------------------------------------------------------

  function IndexOf(s: string, ch: char): (i: nat)
    requires ch in s
    ensures i < |s| && s[i] == ch && ch !in s[..i]
  {
    if s[0] == ch then 0
    else
      var i := IndexOf(s[1..], ch);
      assert s[..i + 1] == [s[0]] + s[1..][..i];
      1 + i
  }

  /** Split at the separator into at most `n` pieces; the last keeps the rest. */
  function SplitN(s: string, n: nat, sep: char): (parts: seq<string>)
    ensures parts != []
    decreases n
  {
    if n <= 1 || sep !in s then [s]
    else
      var i := IndexOf(s, sep);
      [s[..i]] + SplitN(s[i + 1..], n - 1, sep)
  }

  function Split(s: string, sep: char): seq<string> {
    SplitN(s, |s| + 1, sep)
  }

  function Join(parts: seq<string>, sep: char): string {
    if parts == [] then ""
    else if |parts| == 1 then parts[0]
    else parts[0] + [sep] + Join(parts[1..], sep)
  }

  ghost predicate Free(parts: seq<string>, sep: char) {
    forall i | 0 <= i < |parts| :: sep !in parts[i]
  }

  lemma FreeTail(parts: seq<string>, sep: char)
    requires parts != [] && Free(parts, sep)
    ensures sep !in parts[0] && Free(parts[1..], sep)
  {
  }

  lemma FreeCons(line: string, lines: seq<string>, sep: char)
    requires sep !in line && Free(lines, sep)
    ensures Free([line] + lines, sep)
  {
  }

  lemma Halves(head: string, tail: string, sep: char)
    ensures (head + [sep] + tail)[..|head|] == head && (head + [sep] + tail)[|head| + 1..] == tail
  {
  }

  lemma {:induction false} IndexOfPrefix(head: string, tail: string, sep: char)
    requires sep !in head
    ensures sep in head + [sep] + tail && IndexOf(head + [sep] + tail, sep) == |head|
  {
    var s := head + [sep] + tail;
    assert s[|head|] == sep;
    if head != "" {
      IndexOfPrefix(head[1..], tail, sep);
      assert s[1..] == head[1..] + [sep] + tail && s[0] == head[0];
    }
  }

  lemma SplitNStep(head: string, tail: string, n: nat, sep: char)
    requires sep !in head && n > 1
    ensures SplitN(head + [sep] + tail, n, sep) == [head] + SplitN(tail, n - 1, sep)
  {
    var s := head + [sep] + tail;
    IndexOfPrefix(head, tail, sep);
    assert s[..|head|] == head && s[|head| + 1..] == tail;
  }

  lemma JoinCons(head: string, rest: seq<string>, sep: char)
    requires rest != []
    ensures Join([head] + rest, sep) == head + [sep] + Join(rest, sep)
  {
    assert ([head] + rest)[1..] == rest;
  }

  lemma {:induction false} SplitNJoin(parts: seq<string>, n: nat, sep: char)
    requires parts != [] && |parts| <= n && Free(parts, sep)
    ensures SplitN(Join(parts, sep), n, sep) == parts
  {
    var head, rest := parts[0], parts[1..];
    assert parts == [head] + rest;
    if rest == [] {
      assert Join(parts, sep) == head && sep !in head;
    } else {
      FreeTail(parts, sep);
      JoinCons(head, rest, sep);
      SplitNJoin(rest, n - 1, sep);
      SplitNStep(head, Join(rest, sep), n, sep);
    }
  }

  lemma {:induction false} JoinLength(parts: seq<string>, sep: char)
    requires parts != []
    ensures |parts| <= |Join(parts, sep)| + 1
  {
    if |parts| > 1 {
      JoinLength(parts[1..], sep);
    }
  }

  /** Splitting undoes joining when no part contains the separator. */
  lemma SplitJoin(parts: seq<string>, sep: char)
    requires parts != [] && Free(parts, sep)
    ensures Split(Join(parts, sep), sep) == parts
  {
    JoinLength(parts, sep);
    SplitNJoin(parts, |Join(parts, sep)| + 1, sep);
  }

  lemma {:induction false} JoinAvoids(parts: seq<string>, sep: char, other: char)
    requires Free(parts, other) && sep != other
    ensures other !in Join(parts, sep)
  {
    if |parts| > 1 {
      JoinAvoids(parts[1..], sep, other);
    }
  }

  // ---- trimming ------------------------------------------------------------------------------------

  predicate IsSpace(ch: char) { ch in {' ', '\t', '\n', '\r'} }

  function Trim(s: string): string {
    if s != "" && IsSpace(s[0]) then Trim(s[1..])
    else if s != "" && IsSpace(s[|s| - 1]) then Trim(s[..|s| - 1])
    else s
  }

  lemma TrimKeeps(s: string)
    requires s != "" && !IsSpace(s[0]) && !IsSpace(s[|s| - 1])
    ensures Trim(s) == s
  {
  }
}
