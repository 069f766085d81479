/** Quoting string values for the configuration file, and reading them back. */
module StringEscape {
  import opened Options

  predicate Special(c: char) { c == '"' || c == '\\' }

  /** A backslash before every quote and backslash. */
  function Escaped(s: string): string {
    if s == "" then "" else (if Special(s[0]) then ['\\', s[0]] else [s[0]]) + Escaped(s[1..])
  }

  function Quoted(s: string): string { "\"" + Escaped(s) + "\"" }

  lemma {:induction false} EscapedConcat(a: string, b: string)
    ensures Escaped(a + b) == Escaped(a) + Escaped(b)
    decreases |a|
  {
    if a == "" {
      assert a + b == b;
    } else {
      assert (a + b)[1..] == a[1..] + b;
      EscapedConcat(a[1..], b);
    }
  }

  lemma {:induction false} EscapedPlain(s: string)
    requires forall i :: 0 <= i < |s| ==> !Special(s[i])
    ensures Escaped(s) == s
    decreases |s|
  {
    if s != "" {
      EscapedPlain(s[1..]);
    }
  }

  /** `strcspn(p, "\"\\")` */
  method Span(s: string, p: nat) returns (l: nat)
    requires p <= |s|
    ensures p + l <= |s| && (p + l < |s| ==> Special(s[p + l]))
    ensures forall i :: p <= i < p + l ==> !Special(s[i])
  {
    l := 0;
    while p + l < |s| && !Special(s[p + l])
      invariant p + l <= |s| && forall i :: p <= i < p + l ==> !Special(s[i])
    {
      l := l + 1;
    }
  }

  lemma EscapedStep(s: string, p: nat, l: nat)
    requires p + l <= |s| && forall i :: p <= i < p + l ==> !Special(s[i])
    ensures Escaped(s[..p + l]) == Escaped(s[..p]) + s[p..p + l]
    ensures p + l < |s| && Special(s[p + l]) ==>
      Escaped(s[..p + l + 1]) == Escaped(s[..p]) + s[p..p + l] + ['\\', s[p + l]]
  {
    assert s[..p + l] == s[..p] + s[p..p + l];
    EscapedConcat(s[..p], s[p..p + l]);
    EscapedPlain(s[p..p + l]);
    if p + l < |s| {
      assert s[..p + l + 1] == s[..p + l] + [s[p + l]];
      EscapedConcat(s[..p + l], [s[p + l]]);
    }
  }

  /** The first loop of `sym_escape_string_value`: the bytes to allocate, with one for the terminating NUL. */
  method BufferLength(s: string) returns (resLen: nat)
    ensures resLen == |Quoted(s)| + 1
  {
    resLen := |s| + 2 + 1;
    var p := 0;
    while true
      invariant p <= |s| && resLen + p == |s| + 3 + |Escaped(s[..p])|
      decreases |s| - p
    {
      var l := Span(s, p);
      EscapedStep(s, p, l);
      p := p + l;
      if p == |s| {
        break;
      }
      resLen := resLen + 1;
      p := p + 1;
    }
    assert s[..|s|] == s;
  }

  /** `sym_escape_string_value` fills exactly the bytes it has allocated. */
  method Escape(s: string) returns (res: string, resLen: nat)
    ensures res == Quoted(s) && resLen == |res| + 1
  {
    resLen := BufferLength(s);
    res := "\"";
    var p := 0;
    while true
      invariant p <= |s| && res == "\"" + Escaped(s[..p])
      decreases |s| - p
    {
      var l := Span(s, p);
      EscapedStep(s, p, l);
      res := res + s[p..p + l];
      p := p + l;
      if p == |s| {
        break;
      }
      res := res + "\\" + [s[p]];
      p := p + 1;
    }
    assert s[..|s|] == s;
    res := res + "\"";
  }

  // ----- reading back -----

  /** The text up to the first quote that no backslash protects; `None` if there is none. */
  function Unescaped(body: string): Option<string> {
    if body == "" then None
    else if body[0] == '"' then Some("")
    else if body[0] == '\\' then
      if |body| == 1 then None else Prefixed(body[1], Unescaped(body[2..]))
    else
      Prefixed(body[0], Unescaped(body[1..]))
  }

  function Prefixed(c: char, r: Option<string>): Option<string> {
    if r.None? then None else Some([c] + r.value)
  }

  /** The last character is a backslash that protects nothing. */
  predicate EndsBroken(body: string) {
    body != "" && body[0] != '"' &&
      if body[0] == '\\' then |body| == 1 || EndsBroken(body[2..]) else EndsBroken(body[1..])
  }

  function After(prefix: string, r: Option<string>): Option<string> {
    if r.None? then None else Some(prefix + r.value)
  }

  lemma {:induction false} SkipPlain(body: string, l: nat)
    requires l <= |body| && forall i :: 0 <= i < l ==> !Special(body[i])
    ensures Unescaped(body) == After(body[..l], Unescaped(body[l..]))
    ensures EndsBroken(body) == EndsBroken(body[l..])
    decreases l
  {
    if l == 0 {
      assert body[0..] == body && body[..0] == "";
      assert Unescaped(body).Some? ==> [] + Unescaped(body).value == Unescaped(body).value;
    } else {
      SkipPlain(body[1..], l - 1);
      assert body[1..][l - 1..] == body[l..];
      var r := Unescaped(body[l..]);
      assert r.Some? ==> [body[0]] + (body[1..][..l - 1] + r.value) == body[..l] + r.value;
    }
  }

  /** The outcome of reading: `PastEnd` when the cursor leaves the NUL-terminated line. */
  datatype Reading = Text(text: string) | Unquoted | Unterminated | PastEnd

  function Read(line: string): Reading {
    if line == "" || line[0] != '"' then Unquoted
    else if EndsBroken(line[1..]) then PastEnd
    else
      match Unescaped(line[1..])
      case Some(t) => Text(t)
      case None => Unterminated
  }

  /**
   The string case of `conf_set_sym_val`: the line is edited in place. The cursor is inside the text or on the NUL after
   it, until a backslash in front of the NUL has been removed and the loop steps over the NUL.
   */
  method Unescape(line: string) returns (r: Reading)
    ensures r == Read(line)
  {
    if line == "" || line[0] != '"' {
      return Unquoted;
    }
    var text := line[1..];
    var p2 := 0;
    AfterNothing(text);
    while true
      invariant p2 <= |text| && EndsBroken(text[p2..]) == EndsBroken(line[1..])
      invariant Unescaped(line[1..]) == After(text[..p2], Unescaped(text[p2..]))
      decreases |text| - p2
    {
      var l := Span(text, p2);
      ghost var rest := text[p2..];
      SkipPlain(rest, l);
      assert rest[l..] == text[p2 + l..] && text[..p2] + rest[..l] == text[..p2 + l];
      AfterAfter(text[..p2], rest[..l], Unescaped(rest[l..]));
      p2 := p2 + l;
      if p2 == |text| {
        return Unterminated;
      }
      if text[p2] == '"' {
        assert Unescaped(text[p2..]) == Some("") && text[..p2] + "" == text[..p2];
        text := text[..p2];
        return Text(text);
      }
      // memmove over the backslash; the character it protected is skipped
      ghost var before, tail := text[..p2], text[p2..];
      text := text[..p2] + text[p2 + 1..];
      p2 := p2 + 1;
      if p2 > |text| {
        return PastEnd;
      }
      assert tail[2..] == text[p2..] && text[..p2] == before + [tail[1]];
      AfterAfter(before, [tail[1]], Unescaped(tail[2..]));
    }
  }

  lemma AfterAfter(a: string, b: string, r: Option<string>)
    ensures After(a, After(b, r)) == After(a + b, r)
    ensures |b| == 1 ==> After(b, r) == Prefixed(b[0], r)
  {
    if r.Some? {
      assert a + (b + r.value) == (a + b) + r.value;
      assert |b| == 1 ==> b == [b[0]];
    }
  }

  lemma AfterNothing(body: string)
    ensures body[0..] == body && After(body[..0], Unescaped(body)) == Unescaped(body)
  {
    if Unescaped(body).Some? {
      assert body[..0] + Unescaped(body).value == Unescaped(body).value;
    }
  }

  lemma {:induction false} UnescapedEscaped(s: string, t: string)
    ensures Unescaped(Escaped(s) + "\"" + t) == Some(s) && !EndsBroken(Escaped(s) + "\"" + t)
    decreases |s|
  {
    var body := Escaped(s) + "\"" + t;
    if s != "" {
      UnescapedEscaped(s[1..], t);
      var rest := Escaped(s[1..]) + "\"" + t;
      if Special(s[0]) {
        assert body == ['\\', s[0]] + rest;
        assert body[2..] == rest;
      } else {
        assert body == [s[0]] + rest;
        assert body[1..] == rest;
      }
      assert [s[0]] + s[1..] == s;
    }
  }

  /** Reading back what was written gives the value, whatever follows the closing quote on the line. */
  method WriteAndRead(s: string, t: string) returns (r: Reading)
    ensures r == Text(s)
  {
    var line, _ := Escape(s);
    UnescapedEscaped(s, t);
    assert (line + t)[1..] == Escaped(s) + "\"" + t;
    r := Unescape(line + t);
  }
}
