/** Names of lock files: the mailbox URL with slashes and percent signs escaped. */
module LockFile {
  import opened Common

  predicate Escapable(c: char) {
    c == '/' || c == '%'
  }

  const XCHR: string := "0123456789ABCDEF"

  /** One character of the URL. */
  function Escaped(c: char): string {
    if Escapable(c) then ['%', XCHR[c as int / 16 % 16], XCHR[c as int % 16]] else [c]
  }

  function Encode(url: string): string {
    if url == [] then [] else Escaped(url[0]) + Encode(url[1..])
  }

  function HexValue(c: char): Option<nat> {
    if '0' <= c <= '9' then Some(c as int - '0' as int)
    else if 'A' <= c <= 'F' then Some(c as int - 'A' as int + 10)
    else None
  }

  /** Undoing the escapes; None when the text is not an encoded one. */
  function Decode(t: string): Option<string> {
    if t == [] then Some([])
    else if t[0] != '%' then
      match Decode(t[1..])
      case None => None
      case Some(s) => Some([t[0]] + s)
    else if |t| < 3 then None
    else
      match (HexValue(t[1]), HexValue(t[2]), Decode(t[3..]))
      case (Some(h), Some(l), Some(s)) => Some([(16 * h + l) as char] + s)
      case _ => None
  }

  lemma {:induction false} EncodeAppend(s: string, c: char)
    ensures Encode(s + [c]) == Encode(s) + Escaped(c)
  {
    hide Escaped;
    if s == [] {
      var none: string := [];
      assert s + [c] == [c] && [c][1..] == none && Encode(none) == none;
      assert Escaped(c) + none == Escaped(c);
    } else {
      EncodeAppend(s[1..], c);
      assert (s + [c])[1..] == s[1..] + [c] && (s + [c])[0] == s[0];
      var h, x, y := Escaped(s[0]), Encode(s[1..]), Escaped(c);
      AppendAssoc(h, x, y);
    }
  }

  /** make_locker_file_name, up to the directory: a counting loop, then a writing loop
      that fills exactly the space that was counted. */
  method MakeLockerFileName(urlstr: string) returns (buf: array<char>)
    requires NulFree(urlstr)
    ensures fresh(buf) && buf.Length == |Encode(urlstr)| + 1
    ensures buf[..] == Encode(urlstr) + [NUL]
  {
    hide Escaped;
    var size := 0;
    for p := 0 to |urlstr|
      invariant size == |Encode(urlstr[..p])|
    {
      assert urlstr[..p + 1] == urlstr[..p] + [urlstr[p]];
      EncodeAppend(urlstr[..p], urlstr[p]);
      EscapedShape(urlstr[p]);
      if Escapable(urlstr[p]) {
        size := size + 2;
      }
      size := size + 1;
    }
    assert urlstr[..|urlstr|] == urlstr;
    buf := new char[size + 1];
    var q := 0;
    for p := 0 to |urlstr|
      invariant q == |Encode(urlstr[..p])| <= size && buf[..q] == Encode(urlstr[..p])
    {
      assert urlstr[..p + 1] == urlstr[..p] + [urlstr[p]];
      EncodeAppend(urlstr[..p], urlstr[p]);
      EscapedShape(urlstr[p]);
      EncodePrefix(urlstr, p + 1);
      var c := urlstr[p];
      if Escapable(c) {
        buf[q] := '%';
        buf[q + 1] := XCHR[c as int / 16 % 16];
        buf[q + 2] := XCHR[c as int % 16];
        q := q + 3;
      } else {
        buf[q] := c;
        q := q + 1;
      }
    }
    buf[q] := NUL;
    assert buf[..] == buf[..q] + [NUL];
  }

  lemma EscapedShape(c: char)
    ensures Escaped(c) == if Escapable(c) then ['%', XCHR[c as int / 16 % 16], XCHR[c as int % 16]] else [c]
  {
  }

  lemma {:induction false} EncodePrefix(s: string, n: nat)
    requires n <= |s|
    ensures |Encode(s[..n])| <= |Encode(s)|
    decreases |s| - n
  {
    if n == |s| {
      assert s[..n] == s;
    } else {
      EncodeAppend(s[..n], s[n]);
      assert s[..n + 1] == s[..n] + [s[n]];
      EncodePrefix(s, n + 1);
    }
  }

  /** The encoded name has no slash, so that it names a file in the lock directory. */
  lemma {:induction false} NoSlash(url: string)
    ensures '/' !in Encode(url)
  {
    if url != [] {
      NoSlash(url[1..]);
      assert '/' !in Escaped(url[0]);
    }
  }

  lemma {:induction false} DecodeEscaped(c: char, t: string)
    requires Decode(t).Some?
    ensures Decode(Escaped(c) + t) == Some([c] + Decode(t).value)
  {
    var u := Escaped(c) + t;
    if Escapable(c) {
      assert Escaped(c) == if c == '/' then "%2F" else "%25";
      assert u[3..] == t && HexValue(u[1]) == Some(2) && HexValue(u[2]) == Some(c as int % 16);
    } else {
      assert u[1..] == t;
    }
  }

  lemma {:induction false} EncodeJoin(a: string, b: string)
    ensures Encode(a + b) == Encode(a) + Encode(b)
  {
    hide Escaped;
    if a == [] {
      assert a + b == b;
    } else {
      EncodeJoin(a[1..], b);
      assert (a + b)[1..] == a[1..] + b && (a + b)[0] == a[0];
      AppendAssoc(Escaped(a[0]), Encode(a[1..]), Encode(b));
    }
  }

  lemma {:induction false} EncodePlain(a: string)
    requires '/' !in a && '%' !in a
    ensures Encode(a) == a
  {
    if a != [] {
      assert a[0] in a && forall c :: c in a[1..] ==> c in a;
      EncodePlain(a[1..]);
    }
  }

  /** What the name looks like: `%2F` for each slash, `%25` for each percent sign, and
      everything else as it is. */
  lemma EncodedForm(a: string, b: string)
    requires '/' !in a && '%' !in a
    ensures Encode(a) == a
    ensures Encode(a + "/" + b) == a + "%2F" + Encode(b)
    ensures Encode(a + "%" + b) == a + "%25" + Encode(b)
  {
    hide Encode;
    EncodePlain(a);
    EncodeJoin(a + "/", b);
    EncodeJoin(a + "%", b);
    EncodeAppend(a, '/');
    EncodeAppend(a, '%');
    assert Escaped('/') == "%2F" && Escaped('%') == "%25";
    assert a + ['/'] == a + "/" && a + ['%'] == a + "%";
  }

  /** The digits of an escape, upper-case hexadecimal, are read back one by one. */
  lemma DigitsRead(n: nat)
    requires n < 16
    ensures HexValue(XCHR[n]) == Some(n) && |XCHR| == 16
    ensures n < 10 ==> XCHR[n] == '0' + n as char
    ensures n >= 10 ==> XCHR[n] == 'A' + (n - 10) as char
  {
  }

  /** The URL can be read back, */
  lemma {:induction false} DecodeEncode(url: string)
    ensures Decode(Encode(url)) == Some(url)
  {
    if url != [] {
      hide Decode, Escaped;
      DecodeEncode(url[1..]);
      DecodeEscaped(url[0], Encode(url[1..]));
      assert [url[0]] + url[1..] == url;
    } else {
      assert Encode(url) == [] && Decode([]) == Some(url);
    }
  }

  /** so that no two mailboxes share a lock file. */
  lemma NoCollision(a: string, b: string)
    ensures Encode(a) == Encode(b) <==> a == b
  {
    DecodeEncode(a);
    DecodeEncode(b);
  }
}
