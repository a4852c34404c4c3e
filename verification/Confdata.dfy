/** The lines of .config: what conf_write emits for a symbol, and what conf_read makes of it. */
module Confdata {
  import opened Options

  const NUL: char := '\0'
  const NEWLINE: char := '\n'
  const QUOTE: char := '"'
  const BACKSLASH: char := '\\'

  // ---- Strings: escaping and un-escaping ----

  predicate IsSpecial(c: char) {
    c == QUOTE || c == BACKSLASH
  }

  function Escape(s: string): string {
    if s == "" then ""
    else (if IsSpecial(s[0]) then [BACKSLASH, s[0]] else [s[0]]) + Escape(s[1..])
  }

  /** The text up to the first quote that is not escaped, without the escapes. */
  function Unquote(s: string): Option<string>
    decreases |s|
  {
    if s == "" then None
    else if s[0] == QUOTE then Some("")
    else if s[0] == BACKSLASH then
      if |s| == 1 then None else Prepend(s[1], Unquote(s[2..]))
    else Prepend(s[0], Unquote(s[1..]))
  }

  function Prepend(c: char, s: Option<string>): Option<string> {
    if s.Some? then Some([c] + s.value) else None
  }

  function Specials(s: string): nat {
    multiset(s)[QUOTE] + multiset(s)[BACKSLASH]
  }

  /** Each quote and each backslash, and nothing else, costs one more character. */
  lemma {:induction false} EscapeLength(s: string)
    ensures |Escape(s)| == |s| + Specials(s)
  {
    if s != "" {
      EscapeLength(s[1..]);
      assert s == [s[0]] + s[1..];
    }
  }

  lemma {:induction false} UnquoteEscape(s: string, rest: string)
    ensures Unquote(Escape(s) + [QUOTE] + rest) == Some(s)
  {
    var t := Escape(s) + [QUOTE] + rest;
    if s == "" {
      assert t[0] == QUOTE;
    } else {
      UnquoteEscape(s[1..], rest);
      var t' := Escape(s[1..]) + [QUOTE] + rest;
      if IsSpecial(s[0]) {
        assert t == [BACKSLASH, s[0]] + t' && t[2..] == t';
      } else {
        assert t == [s[0]] + t' && t[1..] == t';
      }
      assert [s[0]] + s[1..] == s;
    }
  }

  /** Cut anywhere before the closing quote, the text has no end. */
  lemma {:induction false} UnquoteCut(s: string, k: nat)
    requires k <= |Escape(s)|
    ensures Unquote(Escape(s)[..k]) == None
  {
    var t := Escape(s)[..k];
    if k > 0 {
      if IsSpecial(s[0]) {
        assert t[0] == BACKSLASH;
        if k > 1 {
          assert t[2..] == Escape(s[1..])[..k - 2];
          UnquoteCut(s[1..], k - 2);
        }
      } else {
        assert t[1..] == Escape(s[1..])[..k - 1];
        UnquoteCut(s[1..], k - 1);
      }
    }
  }

  /** strcspn: the length of the part before the first quote or backslash. */
  method Strcspn(s: string) returns (n: nat)
    ensures n <= |s| && (forall i :: 0 <= i < n ==> !IsSpecial(s[i])) && (n < |s| ==> IsSpecial(s[n]))
  {
    n := 0;
    while n < |s| && !IsSpecial(s[n])
      invariant n <= |s| && forall i :: 0 <= i < n ==> !IsSpecial(s[i])
    {
      n := n + 1;
    }
  }

  /** The write loop of conf_write for a string value. */
  method WriteEscaped(value: string) returns (out: string)
    ensures out == Escape(value)
  {
    out := "";
    var str := value;
    while true
      invariant out + Escape(str) == Escape(value)
      decreases |str|
    {
      var l := Strcspn(str);
      EscapePlain(out, str, l);
      out := out + str[..l];
      str := str[l..];
      ghost var behind := str;
      while str != "" && IsSpecial(str[0])
        invariant out + Escape(str) == Escape(value)
        invariant str == behind || |str| < |behind|
        decreases |str|
      {
        EscapeSpecial(out, str);
        out := out + [BACKSLASH, str[0]];
        str := str[1..];
      }
      if str == "" {
        break;
      }
    }
    assert out + "" == out;
  }

  /** What is still to be written, behind what has been: an escaped character, or ordinary ones. */
  lemma {:induction false} EscapeSpecial(out: string, s: string)
    requires s != "" && IsSpecial(s[0])
    ensures out + Escape(s) == out + [BACKSLASH, s[0]] + Escape(s[1..])
  {
  }

  lemma {:induction false} EscapePlain(out: string, s: string, l: nat)
    requires l <= |s| && forall i :: 0 <= i < l ==> !IsSpecial(s[i])
    ensures out + Escape(s) == out + s[..l] + Escape(s[l..])
  {
    EscapeSplit(s, l);
  }

  lemma {:induction false} EscapeSplit(s: string, l: nat)
    requires l <= |s| && forall i :: 0 <= i < l ==> !IsSpecial(s[i])
    ensures Escape(s) == s[..l] + Escape(s[l..])
  {
    if l == 0 {
      assert s[0..] == s && "" + Escape(s) == Escape(s);
    } else {
      EscapeSplit(s[1..], l - 1);
      assert s[1..][l - 1..] == s[l..];
      assert [s[0]] + (s[1..][..l - 1] + Escape(s[l..])) == s[..l] + Escape(s[l..]);
    }
  }

  // ---- The line buffer ----

  /** The C string in the buffer between p and the terminator at e. */
  ghost predicate Terminated(buf: seq<char>, p: nat, e: nat) {
    p <= e < |buf| && buf[e] == NUL && NUL !in buf[p..e]
  }

  /** strpbrk from p2: the next quote or backslash before the terminator. */
  method Strpbrk(buf: array<char>, p2: nat, ghost e: nat) returns (q: nat)
    requires Terminated(buf[..], p2, e)
    ensures p2 <= q <= e && (forall i :: p2 <= i < q ==> !IsSpecial(buf[i]))
    ensures q < e ==> IsSpecial(buf[q])
    ensures q == e <==> buf[q] == NUL
  {
    q := p2;
    while buf[q] != NUL && !IsSpecial(buf[q])
      invariant p2 <= q <= e && forall i :: p2 <= i < q ==> !IsSpecial(buf[i])
      decreases e - q
    {
      assert q < e;
      q := q + 1;
    }
    if q < e {
      assert buf[..][p2..e][q - p2] == buf[q];
    }
  }

  /** memmove(p2, p2 + 1, strlen(p2)). */
  method MoveDown(buf: array<char>, q: nat, ghost e: nat)
    requires Terminated(buf[..], q, e)
    modifies buf
    ensures buf[..q] == old(buf[..q]) && buf[e..] == old(buf[e..])
    ensures buf[q..e] == old(buf[q + 1..e + 1])
  {
    var j := q;
    while buf[j] != NUL
      invariant q <= j <= e
      invariant forall i :: 0 <= i < q || j <= i < buf.Length ==> buf[i] == old(buf[i])
      invariant forall i :: q <= i < j ==> buf[i] == old(buf[i + 1])
      decreases e - j
    {
      buf[j] := buf[j + 1];
      j := j + 1;
    }
  }

  ghost function PrependAll(a: string, s: Option<string>): Option<string> {
    if s.Some? then Some(a + s.value) else None
  }

  lemma PrependTwice(a: string, b: string, s: Option<string>)
    ensures PrependAll(a, PrependAll(b, s)) == PrependAll(a + b, s)
    ensures PrependAll("", s) == s
    ensures forall c: char :: Prepend(c, s) == PrependAll([c], s)
  {
    if s.Some? {
      assert a + (b + s.value) == a + b + s.value;
      assert "" + s.value == s.value;
    }
  }

  /** Ordinary characters are taken over as they are. */
  lemma {:induction false} UnquotePlain(s: string, n: nat)
    requires n <= |s| && forall i :: 0 <= i < n ==> !IsSpecial(s[i])
    ensures Unquote(s) == PrependAll(s[..n], Unquote(s[n..]))
  {
    if n == 0 {
      assert s[0..] == s && s[..0] == "";
      PrependTwice("", "", Unquote(s));
    } else {
      UnquotePlain(s[1..], n - 1);
      assert s[1..][n - 1..] == s[n..];
      assert [s[0]] + s[1..][..n - 1] == s[..n];
      PrependTwice([s[0]], s[1..][..n - 1], Unquote(s[n..]));
      PrependTwice("", "", Unquote(s[1..]));
    }
  }

  /** One round of the loop: ordinary characters, then a quote, or a backslash with the character
      it protects. */
  lemma {:induction false} UnquoteRound(done: string, rest: string, n: nat)
    requires n <= |rest| && forall i :: 0 <= i < n ==> !IsSpecial(rest[i])
    requires n < |rest| ==> IsSpecial(rest[n])
    ensures PrependAll(done, Unquote(rest)) ==
              if n == |rest| || (rest[n] == BACKSLASH && n + 1 == |rest|) then None
              else if rest[n] == QUOTE then Some(done + rest[..n])
              else PrependAll(done + rest[..n] + [rest[n + 1]], Unquote(rest[n + 2..]))
  {
    UnquotePlain(rest, n);
    var tail := rest[n..];
    PrependTwice(done, rest[..n], Unquote(tail));
    if n < |rest| {
      assert tail[0] == rest[n];
      if rest[n] == QUOTE {
        assert done + rest[..n] + "" == done + rest[..n];
      } else if n + 1 < |rest| {
        assert tail[2..] == rest[n + 2..] && tail[1] == rest[n + 1];
        PrependTwice(done + rest[..n], [rest[n + 1]], Unquote(rest[n + 2..]));
      }
    }
  }

  lemma EndOfText(buf: seq<char>, p: nat, p2: nat, e: nat)
    requires Terminated(buf, p, e) && p <= p2 <= e
    ensures Terminated(buf, p2, e) && (buf[p2] == NUL <==> p2 == e)
    ensures buf[p..e][p2 - p..] == buf[p2..e]
  {
    if p2 < e {
      assert buf[p2] == buf[p..e][p2 - p];
    }
    assert forall i :: p2 <= i < e ==> buf[i] == buf[p..e][i - p];
  }

  /** What moving down by one at q does to the text. */
  lemma MovedDown(b0: seq<char>, b1: seq<char>, p: nat, q: nat, e: nat)
    requires Terminated(b0, p, e) && p <= q < e && |b1| == |b0|
    requires b1[..q] == b0[..q] && b1[q..e] == b0[q + 1..e + 1]
    ensures Terminated(b1, p, e - 1)
    ensures q + 2 <= e ==> b1[p..q + 1] == b0[p..q] + [b0[q + 1]] && b1[q + 1..e - 1] == b0[q + 2..e]
  {
    assert forall i :: 0 <= i < q ==> b1[i] == b1[..q][i] == b0[..q][i] == b0[i];
    assert forall i :: q <= i < e ==> b1[i] == b1[q..e][i - q] == b0[q + 1..e + 1][i - q] == b0[i + 1];
    forall i | p <= i < e - 1 ensures b1[i] != NUL {
      assert b1[i] == b0[if i < q then i else i + 1] == b0[p..e][(if i < q then i else i + 1) - p];
    }
  }

  /** Between p and p2 the buffer holds what has been decoded of the text, behind it the rest. */
  ghost predicate Progress(b: seq<char>, p: nat, p2: nat, e: nat, text: string) {
    && p <= p2 <= e && Terminated(b, p, e)
    && Unquote(text) == PrependAll(b[p..p2], Unquote(b[p2..e]))
  }

  /** Ordinary characters from p2 on, up to q. */
  ghost predicate PlainUpTo(b: seq<char>, p2: nat, q: nat, e: nat) {
    && p2 <= q <= e < |b|
    && (forall i :: p2 <= i < q ==> !IsSpecial(b[i])) && (q < e ==> IsSpecial(b[q]))
  }

  lemma {:induction false} Slices(b: seq<char>, p: nat, p2: nat, q: nat, e: nat)
    requires p <= p2 <= q <= e <= |b|
    ensures b[p..p2] + b[p2..e][..q - p2] == b[p..q] == b[p..e][..q - p]
    ensures forall i :: q <= i < e ==> b[p2..e][i - p2] == b[i]
    ensures forall i :: q <= i <= e ==> b[p2..e][i - p2..] == b[i..e]
  {
  }

  lemma {:induction false} RoundEnds(b: seq<char>, p: nat, p2: nat, q: nat, e: nat, text: string)
    requires Progress(b, p, p2, e, text) && PlainUpTo(b, p2, q, e)
    ensures q == e ==> Unquote(text) == None
    ensures q < e && b[q] == QUOTE ==>
              Unquote(text) == Some(b[p..q]) && Terminated(b[q := NUL], p, q) && b[q := NUL][p..q] == b[p..q]
  {
    Slices(b, p, p2, q, e);
    UnquoteRound(b[p..p2], b[p2..e], q - p2);
    if q < e {
      assert NUL !in b[p..e][..q - p];
      assert b[q := NUL][p..q] == b[p..q];
    }
  }

  lemma {:induction false} RoundGoesOn(b0: seq<char>, b1: seq<char>, p: nat, p2: nat, q: nat, e: nat, text: string)
    requires Progress(b0, p, p2, e, text) && PlainUpTo(b0, p2, q, e) && q < e && b0[q] == BACKSLASH
    requires |b1| == |b0| && b1[..q] == b0[..q] && b1[q..e] == b0[q + 1..e + 1]
    ensures if q + 1 < e then Progress(b1, p, q + 1, e - 1, text) else Unquote(text) == None
  {
    Slices(b0, p, p2, q, e);
    UnquoteRound(b0[p..p2], b0[p2..e], q - p2);
    MovedDown(b0, b1, p, q, e);
    assert b0[p2..e][q - p2] == b0[q];
    if q + 1 < e {
      assert b0[p2..e][q - p2 + 1] == b0[q + 1] && b0[p2..e][q - p2 + 2..] == b0[q + 2..e];
    }
  }

  /** The loop of conf_read that removes escapes in place: each backslash is overwritten by moving
      the rest of the line down by one, and the quote found becomes the terminator. */
  method UnescapeInPlace(buf: array<char>, p: nat, ghost e: nat) returns (ok: bool, ghost end: nat)
    requires Terminated(buf[..], p, e)
    modifies buf
    ensures ok <==> Unquote(old(buf[p..e])).Some?
    ensures ok ==> Terminated(buf[..], p, end) && buf[p..end] == Unquote(old(buf[p..e])).value
    ensures buf[..p] == old(buf[..p])
  {
    var p2 := p;
    end := e;
    ghost var text := buf[p..e];
    assert buf[..][p..p] == "" && buf[..][p..e] == text;
    PrependTwice("", "", Unquote(text));
    while true
      invariant p <= p2 <= e && end <= e < buf.Length && buf[..p] == old(buf[..p])
      invariant if p2 <= end then Progress(buf[..], p, p2, end, text) else buf[p2] == NUL && Unquote(text) == None
      decreases e - p2
    {
      if buf[p2] == NUL {
        if p2 <= end {
          EndOfText(buf[..], p, p2, end);
          RoundEnds(buf[..], p, p2, p2, end, text);
        }
        return false, end;
      }
      EndOfText(buf[..], p, p2, end);
      var q := Strpbrk(buf, p2, end);
      ghost var before := buf[..];
      RoundEnds(before, p, p2, q, end, text);
      if buf[q] == NUL {
        return false, end;
      }
      if buf[q] == QUOTE {
        buf[q] := NUL;
        assert buf[..] == before[q := NUL];
        assert buf[..][p..q] == buf[p..q];
        end := q;
        return true, end;
      }
      MoveDown(buf, q, end);
      assert buf[..][..q] == buf[..q] && buf[..][q..end] == buf[q..end];
      RoundGoesOn(before, buf[..], p, p2, q, end, text);
      assert buf[end] == buf[end..][0] == before[end];
      end := end - 1;
      p2 := q + 1;
    }
  }
}
