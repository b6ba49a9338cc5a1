/** Where printf puts its characters: the screen, which takes everything, or snprintf's bounded buffer. */
module Sinks {

  /** What a sink takes of a text when it has room for len more characters, or any number if it is not bounded. */
  function Cut(text: string, bounded: bool, len: nat): (r: string)
    ensures |r| <= |text| && (bounded ==> |r| <= len)
  {
    if bounded && len < |text| then text[..len] else text
  }

  /** Feeding two texts one after the other, whether or not the first one fitted, is feeding their concatenation. */
  lemma CutConcat(a: string, b: string, bounded: bool, len: nat)
    ensures Cut(a + b, bounded, len) ==
            Cut(a, bounded, len) + Cut(b, bounded, if bounded then len - |Cut(a, bounded, len)| else len)
  {
    if bounded && len < |a| {
      assert (a + b)[..len] == a[..len] + "";
      assert b[..0] == "";
    } else if bounded && len < |a + b| {
      assert (a + b)[..len] == a + b[..len - |a|];
    }
  }

  /** Once a sink has refused a character, it takes nothing more. */
  lemma CutStops(a: string, b: string, bounded: bool, len: nat)
    requires |Cut(a, bounded, len)| < |a|
    ensures Cut(a + b, bounded, len) == Cut(a, bounded, len)
  {
    assert (a + b)[..len] == a[..len];
  }

  /** func and data of the C code: do_putchar, or do_snputchar with its struct. */
  class Sink {
    const bounded: bool
    const buf: array<char>
    const size: nat
    var off: nat
    var len: nat
    var screen: string
    /** Every character accepted so far, including one that the NUL has replaced in the buffer. */
    ghost var taken: string

    ghost predicate Valid()
      reads this, buf
    {
      if bounded then
        && off + len == size <= buf.Length && |taken| == off
        && forall i | 0 <= i < off :: buf[i] == if len == 0 && i == off - 1 then '\0' else taken[i]
      else
        taken == screen
    }

    constructor Screen()
      ensures Valid() && !bounded && taken == "" && fresh(buf)
    {
      bounded, buf, size, off, len, screen, taken := false, new char[0], 0, 0, 0, "", "";
    }

    constructor Buffer(str: array<char>, n: nat)
      requires n <= str.Length
      ensures Valid() && bounded && buf == str && size == n && len == n && taken == ""
    {
      bounded, buf, size, off, len, screen, taken := true, str, n, 0, n, "", "";
    }

    /** do_snputchar and do_putchar. A full buffer refuses; the last place always gets the NUL. */
    method Put(c: char) returns (ok: bool)
      requires Valid()
      modifies this, buf
      ensures Valid() && taken == old(taken) + Cut([c], bounded, old(len))
      ensures ok == (|Cut([c], bounded, old(len))| == 1)
      ensures len == if bounded then old(len) - |Cut([c], bounded, old(len))| else old(len)
      ensures off >= old(off)
      ensures forall i | off <= i < buf.Length :: buf[i] == old(buf[i])
    {
      if !bounded {
        screen, taken := screen + [c], taken + [c];
        return true;
      }
      if len == 0 { return false; }
      len := len - 1;
      buf[off] := if len == 0 then '\0' else c;
      off := off + 1;
      taken := taken + [c];
      return true;
    }

    /** for each character: PUTCHAR. The first refusal ends the loop. */
    method Feed(text: string) returns (n: nat, ok: bool)
      requires Valid()
      modifies this, buf
      ensures Valid() && taken == old(taken) + Cut(text, bounded, old(len))
      ensures n == |Cut(text, bounded, old(len))| && ok == (n == |text|)
      ensures len == if bounded then old(len) - n else old(len)
      ensures off >= old(off)
      ensures forall i | off <= i < buf.Length :: buf[i] == old(buf[i])
    {
      n := 0;
      while n < |text|
        invariant n <= |text| && Valid()
        invariant taken == old(taken) + text[..n] && n == |Cut(text[..n], bounded, old(len))|
        invariant len == if bounded then old(len) - n else old(len)
        invariant forall i | off <= i < buf.Length :: buf[i] == old(buf[i])
        invariant off >= old(off)
      {
        ok := Put(text[n]);
        if !ok { return n, false; }
        assert text[..n + 1] == text[..n] + [text[n]];
        n := n + 1;
      }
      assert text[..n] == text;
      ok := true;
    }

    /** The sink has been fed text since it held start and had room for room more, and n characters were taken. */
    ghost predicate Fed(start: string, room: nat, text: string, n: nat)
      reads this, buf
    {
      && Valid() && taken == start + Cut(text, bounded, room) && n == |Cut(text, bounded, room)|
      && len == if bounded then room - n else room
    }

    /** PUTCHAR(c) after text before. */
    method PutNext(ghost start: string, ghost room: nat, ghost before: string, count: nat, c: char)
      returns (n: nat, ok: bool)
      requires Fed(start, room, before, count)
      modifies this, buf
      ensures Fed(start, room, before + [c], n) && (!ok ==> n < |before + [c]|)
      ensures n == if ok then count + 1 else count
      ensures off >= old(off) && forall i | off <= i < buf.Length :: buf[i] == old(buf[i])
    {
      CutConcat(before, [c], bounded, room);
      ok := Put(c);
      n := if ok then count + 1 else count;
    }

    lemma FedStops(start: string, room: nat, a: string, b: string, n: nat)
      requires Fed(start, room, a, n) && n < |a|
      ensures Fed(start, room, a + b, n)
    {
      CutStops(a, b, bounded, room);
    }

    lemma FedBoth(start: string, room: nat, a: string, b: string, n: nat, taken0: string, len0: nat, k: nat)
      requires n == |Cut(a, bounded, room)| && taken0 == start + Cut(a, bounded, room)
      requires len0 == if bounded then room - n else room
      requires Fed(taken0, len0, b, k)
      ensures Fed(start, room, a + b, n + k)
    {
      CutConcat(a, b, bounded, room);
    }

    /** One more output loop, unless an earlier one was refused. */
    method FeedNext(ghost start: string, ghost room: nat, ghost before: string, count: nat, going: bool, text: string)
      returns (n: nat, ok: bool)
      requires Fed(start, room, before, count) && going == (count == |before|)
      modifies this, buf
      ensures Fed(start, room, before + text, n) && ok == (n == |before + text|)
      ensures off >= old(off) && forall i | off <= i < buf.Length :: buf[i] == old(buf[i])
    {
      CutConcat(before, text, bounded, room);
      if !going {
        n, ok := count, false;
      } else {
        n, ok := Feed(text);
        n := count + n;
      }
    }
  }

  function Times(c: char, count: nat): (s: string)
    ensures |s| == count && forall i | 0 <= i < count :: s[i] == c
  {
    seq(count, _ => c)
  }
}
