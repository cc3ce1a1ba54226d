/** Unescaping a quoted string inside the buffer that holds it. */
module Unquote {
  import opened Common
  import opened Lexer

  /** memmove */
  method MoveBytes(a: array<char>, dst: nat, src: nat, n: nat)
    requires dst + n <= a.Length && src + n <= a.Length
    modifies a
    ensures forall i :: dst <= i < dst + n ==> a[i] == old(a[i - dst + src])
    ensures forall i :: 0 <= i < a.Length && !(dst <= i < dst + n) ==> a[i] == old(a[i])
  {
    forall i | 0 <= i < n {
      a[dst + i] := a[src + i];
    }
  }

  /** memchr over `a[lo..hi]`, with `hi` for "not found" */
  method FindByte(a: array<char>, lo: nat, hi: nat, c: char) returns (p: nat)
    requires lo <= hi <= a.Length
    ensures lo <= p <= hi
    ensures forall i :: lo <= i < p ==> a[i] != c
    ensures p < hi ==> a[p] == c
  {
    p := lo;
    while p < hi && a[p] != c
      invariant lo <= p <= hi
      invariant forall i :: lo <= i < p ==> a[i] != c
    {
      p := p + 1;
    }
  }

  lemma {:induction false} UnescapePlain(s: string, k: nat)
    requires k <= |s| && '\\' !in s[..k]
    ensures Unescape(s) == match Unescape(s[k..]) case None => None case Some(v) => Some(s[..k] + v)
  {
    if k == 0 {
      assert s[0..] == s;
      assert forall v: string :: s[..0] + v == v;
    } else {
      assert s[0] in s[..k];
      assert s[1..][..k - 1] == s[..k][1..];
      UnescapePlain(s[1..], k - 1);
      assert s[1..][k - 1..] == s[k..];
      assert forall v: string :: [s[0]] + (s[1..][..k - 1] + v) == s[..k] + v;
    }
  }

  /** The loop's bookkeeping: `out` is what has been moved into place, and of the
      rest of the body, `pending`, the first `off` characters are literal. */
  ghost predicate Unescaped(whole: string, out: string, pending: string, off: nat) {
    && off <= |pending|
    && Unescape(pending[off..]).Some?
    && whole == out + pending[..off] + Unescape(pending[off..]).value
  }

  lemma FirstTurn(body: string)
    requires Unescape(body).Some?
    ensures Unescaped(Unescape(body).value, [], body, 0)
  {
    assert body[0..] == body;
  }

  /** One turn: the run before the next backslash moves out, the backslash goes.  A
      backslash at the end of the body has the closing quote behind it. */
  lemma Turn(whole: string, out: string, pending: string, off: nat, k: nat)
    requires off <= |pending| && Unescaped(whole, out, pending, off)
    requires off <= k < |pending| && pending[k] == '\\'
    requires forall i :: off <= i < k ==> pending[i] != '\\'
    ensures k + 1 < |pending| ==> Escapable(pending[k + 1])
    ensures Unescaped(whole, out + pending[..k], pending[k + 1..],
                      if k + 1 < |pending| && pending[k + 1] == '\\' then 1 else 0)
  {
    hide Unescape;
    var s := pending[off..];
    assert s[..k - off] == pending[off..k] && s[k - off..] == pending[k..];
    UnescapePlain(s, k - off);
    var t := pending[k..];
    UnescapeEscapeFirst(t);
    var next := pending[k + 1..];
    assert pending[..off] + pending[off..k] == pending[..k];
    if next == [] {
      UnescapeNothing();
    } else {
      assert t[2..] == next[1..] && t[1] == next[0];
      if next[0] == '"' {
        UnescapePlain(next, 1);
      }
      assert next[0..] == next;
    }
  }

  lemma UnescapeEscapeFirst(t: string)
    requires t != [] && t[0] == '\\' && Unescape(t).Some?
    ensures |t| == 1 ==> Unescape(t).value == []
    ensures |t| >= 2 ==> Escapable(t[1]) && Unescape(t[2..]).Some?
    ensures |t| >= 2 ==> Unescape(t).value == [t[1]] + Unescape(t[2..]).value
  {
  }

  lemma LastTurn(whole: string, out: string, pending: string, off: nat)
    requires off <= |pending| && Unescaped(whole, out, pending, off)
    requires forall i :: off <= i < |pending| ==> pending[i] != '\\'
    ensures whole == out + pending
  {
    hide Unescape;
    var s := pending[off..];
    UnescapePlain(s, |s|);
    UnescapeNothing();
    assert s[..|s|] == s && s[|s|..] == [] && s + [] == s;
    assert pending[..off] + s == pending;
    assert out + (pending[..off] + s) == out + pending[..off] + s;
  }

  /** Appends the run `a[cur..cur + n]` to the output that ends at `prev`; before the
      first escape the run is in place already. */
  method ShiftRun(a: array<char>, ghost line: nat, prev: nat, cur: nat, n: nat, started: bool) returns (next: nat)
    requires line <= prev <= cur && cur + n <= a.Length
    requires !started ==> prev == cur
    modifies a
    ensures next == prev + n
    ensures a[line..next] == old(a[line..prev]) + old(a[cur..cur + n])
    ensures forall i :: 0 <= i < line || cur + n <= i < a.Length ==> a[i] == old(a[i])
  {
    next := prev + n;
    if started {
      MoveBytes(a, prev, cur, n);
    }
    assert forall i :: prev <= i < next ==> a[i] == old(a[i - prev + cur]);
  }

  /** The loop invariant, on the buffer's present and original contents. */
  ghost predicate Midway(now: string, orig: string, line: nat, end: nat, prev: nat, cur: nat, off: nat) {
    && line <= prev <= cur <= end <= |orig| == |now|
    && cur + off <= end
    && (forall i :: 0 <= i < line || cur <= i < |now| ==> now[i] == orig[i])
    && Unescape(orig[line..end]).Some?
    && Unescaped(Unescape(orig[line..end]).value, now[line..prev], orig[cur..end], off)
  }

  /** Handles the escape whose backslash, the next one, is at `p`. */
  method ShiftEscape(a: array<char>, ghost orig: string, ghost line: nat, ghost end: nat,
                     prev: nat, cur: nat, ghost off: nat, p: nat, started: bool) returns (next: nat)
    requires Midway(a[..], orig, line, end, prev, cur, off)
    requires !started ==> prev == cur
    requires cur + off <= p < end < a.Length && a[p] == '\\' && forall i :: cur + off <= i < p ==> a[i] != '\\'
    requires p + 1 == end ==> a[end] == '"'
    modifies a
    ensures next == prev + (p - cur)
    ensures Escapable(a[p + 1])
    ensures Midway(a[..], orig, line, end, next, p + 1, if a[p + 1] == '\\' then 1 else 0)
  {
    hide Unescape, Unescaped;
    ghost var pending, out := orig[cur..end], a[line..prev];
    Turn(Unescape(orig[line..end]).value, out, pending, off, p - cur);
    assert a[cur..p] == pending[..p - cur];
    next := ShiftRun(a, line, prev, cur, p - cur, started);
    assert a[..][line..next] == out + pending[..p - cur];
    assert pending[p - cur + 1..] == orig[p + 1..end];
  }

  method ShiftTail(a: array<char>, ghost orig: string, ghost line: nat, ghost end: nat,
                   prev: nat, cur: nat, ghost off: nat, clen: nat, started: bool) returns (next: nat)
    requires Midway(a[..], orig, line, end, prev, cur, off) && cur + clen == end
    requires !started ==> prev == cur
    requires forall i :: cur + off <= i < end ==> a[i] != '\\'
    modifies a
    ensures next == prev + clen
    ensures a[line..next] == Unescape(orig[line..end]).value
    ensures forall i :: 0 <= i < line || end <= i < a.Length ==> a[i] == orig[i]
  {
    hide Unescape, Unescaped;
    ghost var out := a[line..prev];
    LastTurn(Unescape(orig[line..end]).value, out, orig[cur..end], off);
    assert orig[cur..end] == a[cur..cur + clen];
    next := ShiftRun(a, line, prev, cur, clen, started);
  }

  /** `unquote`: each escape shifts the run before it left over the backslashes
      dropped so far; what remains at `line` is the unescaped text.  Behind a body that
      ends in a backslash the loop looks at the closing quote. */
  method Unquote(a: array<char>, line: nat, len: nat) returns (rlen: nat)
    requires line + len < a.Length
    requires Unescape(a[line..line + len]).Some?
    requires EndsInBackslash(a[line..line + len]) ==> a[line + len] == '"'
    modifies a
    ensures rlen <= len
    ensures a[line..line + rlen] == Unescape(old(a[line..line + len])).value
    ensures forall i :: 0 <= i < line || line + len <= i < a.Length ==> a[i] == old(a[i])
  {
    hide Unescape, Unescaped;
    ghost var orig, end := a[..], line + len;
    assert orig[line..end] == a[line..end];
    rlen := len;
    var cur: nat, clen: nat, off: nat, started, prev: nat := line, len, 0, false, line;
    FirstTurn(orig[line..end]);
    assert orig[line..line] == [];
    while true
      invariant cur + clen == end < a.Length == |orig| && prev <= cur
      invariant off <= clen && (!started ==> prev == cur)
      invariant rlen == prev - line + clen
      invariant Midway(a[..], orig, line, end, prev, cur, off)
      decreases clen
    {
      var p := FindByte(a, cur + off, cur + clen, '\\');
      if p == cur + clen {
        break;
      }
      LastByte(a[..], orig, line, end, prev, cur, off, p);
      prev := ShiftEscape(a, orig, line, end, prev, cur, off, p, started);
      started := true;
      off := if a[p + 1] == '\\' then 1 else 0;
      rlen := rlen - 1;
      clen := clen - (p - cur + 1);
      cur := p + 1;
    }
    prev := ShiftTail(a, orig, line, end, prev, cur, off, clen, started);
  }

  /** A backslash at the end is one of the body, and the quote behind it is in place. */
  lemma LastByte(now: string, orig: string, line: nat, end: nat, prev: nat, cur: nat, off: nat, p: nat)
    requires Midway(now, orig, line, end, prev, cur, off) && cur + off <= p < end < |now| && now[p] == '\\'
    requires EndsInBackslash(orig[line..end]) ==> orig[end] == '"'
    ensures p + 1 == end ==> now[end] == '"'
  {
    assert p + 1 == end ==> orig[line..end][end - line - 1] == orig[p];
  }

  // ---------- when the loop ends ----------

  /** The loop's variables, as offsets into the body it was called on. */
  datatype Scan = Scan(line: nat, off: nat)

  function FirstBackslash(b: string, from: nat): (p: nat)
    requires from <= |b|
    ensures from <= p <= |b| && '\\' !in b[from..p]
    ensures p < |b| ==> b[p] == '\\'
    decreases |b| - from
  {
    if from == |b| || b[from] == '\\' then from else FirstBackslash(b, from + 1)
  }

  /** One turn of the loop on a body with its closing quote behind it; None when the
      guard is false.  A backslash before any other character leaves every variable as
      it was. */
  function ScanStep(b: string, st: Scan): (r: Option<Scan>)
    requires st.line + st.off <= |b|
    ensures r.Some? ==> r.value.line + r.value.off <= |b|
    ensures r.Some? ==> r.value == st || r.value.line > st.line
  {
    var p := FirstBackslash(b, st.line + st.off);
    if p == |b| then None
    else if p + 1 == |b| then Some(Scan(p + 1, 0))
    else if Escapable(b[p + 1]) then Some(Scan(p + 1, if b[p + 1] == '\\' then 1 else 0))
    else Some(st)
  }

  /** Whether the loop reaches its end from `st`, rather than a turn that changes
      nothing and so repeats for ever. */
  predicate Ends(b: string, st: Scan)
    requires st.line + st.off <= |b|
    decreases |b| - st.line
  {
    match ScanStep(b, st)
    case None => true
    case Some(next) => next != st && next.line <= |b| && Ends(b, next)
  }

  lemma UnescapeHead(s: string)
    requires s != []
    ensures s[0] == '\\' ==> (Unescape(s).Some? <==> |s| == 1 || (Escapable(s[1]) && Unescape(s[2..]).Some?))
    ensures s[0] != '\\' ==> (Unescape(s).Some? <==> Unescape(s[1..]).Some?)
  {
  }

  /** What a turn does to the part of the body still to be unescaped. */
  lemma ScanStepUnescapes(b: string, st: Scan)
    requires st.line + st.off <= |b|
    ensures var next := ScanStep(b, st); var able := Unescape(b[st.line + st.off..]).Some?;
            match next
            case None => able
            case Some(n) => if n == st then !able else able <==> Unescape(b[n.line + n.off..]).Some?
  {
    hide Unescape, FirstBackslash;
    var from := st.line + st.off;
    var p := FirstBackslash(b, from);
    assert b[from..][..p - from] == b[from..p];
    UnescapePlain(b[from..], p - from);
    assert b[from..][p - from..] == b[p..];
    if p == |b| {
      UnescapeNothing();
    } else {
      UnescapeHead(b[p..]);
      if p + 1 == |b| {
        UnescapeNothing();
        assert b[p + 1..] == [];
      } else if Escapable(b[p + 1]) {
        assert b[p..][2..] == b[p + 2..];
        if b[p + 1] == '"' {
          UnescapeHead(b[p + 1..]);
          assert b[p + 1..][1..] == b[p + 2..];
        }
      }
    }
  }

  lemma {:induction false} EndsFrom(b: string, st: Scan)
    requires st.line + st.off <= |b|
    ensures Ends(b, st) <==> Unescape(b[st.line + st.off..]).Some?
    decreases |b| - st.line
  {
    hide Unescape, ScanStep;
    ScanStepUnescapes(b, st);
    match ScanStep(b, st) {
      case None =>
      case Some(next) => if next != st { EndsFrom(b, next); }
    }
  }

  /** The in-place loop ends exactly on the bodies the pure function unescapes; on any
      other body it spins on the first bad backslash. */
  lemma UnquoteEnds(b: string)
    ensures Ends(b, Scan(0, 0)) <==> Unescape(b).Some?
  {
    EndsFrom(b, Scan(0, 0));
    assert b[0..] == b;
  }
}
