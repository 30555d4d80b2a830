/** JSON Pointers (sections 3 and 4 of RFC 6901), as the number check writes them. */
module JsonPointer {

  function ReplaceAll(s: string, c: char, text: string): string {
    if s == "" then "" else (if s[0] == c then text else [s[0]]) + ReplaceAll(s[1..], c, text)
  }

  /** First "~" becomes "~0", then "/" becomes "~1". */
  function Escape(key: string): string {
    ReplaceAll(ReplaceAll(key, '~', "~0"), '/', "~1")
  }

  function Pointer(keys: seq<string>): string {
    if keys == [] then "" else "/" + Escape(keys[0]) + Pointer(keys[1..])
  }

  // ---------------------------------------------------------------- reading

  /** Every "~" followed by `digit` becomes `c`, left to right. */
  function Undo(s: string, digit: char, c: char): string {
    if s == "" then ""
    else if |s| >= 2 && s[0] == '~' && s[1] == digit then [c] + Undo(s[2..], digit, c)
    else [s[0]] + Undo(s[1..], digit, c)
  }

  /** Section 4: first "~1" becomes "/", then "~0" becomes "~". */
  function Unescape(token: string): string {
    Undo(Undo(token, '1', '/'), '0', '~')
  }

  function UntilSlash(s: string): (n: nat)
    ensures n <= |s|
  {
    if s == "" || s[0] == '/' then 0 else 1 + UntilSlash(s[1..])
  }

  /** The reference tokens of a pointer, unescaped. */
  function Tokens(s: string): seq<string>
    decreases |s|
  {
    if s == "" then []
    else
      var n := UntilSlash(s[1..]);
      [Unescape(s[1..][..n])] + Tokens(s[1..][n..])
  }

  // ------------------------------------------------------------- round trip

  /** One character of a key, escaped. */
  function EscapeChar(c: char): string {
    if c == '~' then "~0" else if c == '/' then "~1" else [c]
  }

  function HalfEscape(key: string): string { ReplaceAll(key, '~', "~0") }

  lemma {:induction false} EscapeStep(key: string)
    requires key != ""
    ensures HalfEscape(key) == (if key[0] == '~' then "~0" else [key[0]]) + HalfEscape(key[1..])
    ensures Escape(key) == EscapeChar(key[0]) + Escape(key[1..])
  {
    var half := HalfEscape(key[1..]);
    if key[0] == '~' {
      assert ("~0" + half)[1..] == "0" + half && ("0" + half)[1..] == half;
      assert ReplaceAll("0" + half, '/', "~1") == "0" + ReplaceAll(half, '/', "~1");
      assert ReplaceAll("~0" + half, '/', "~1") == "~" + ("0" + ReplaceAll(half, '/', "~1"));
    } else {
      assert ([key[0]] + half)[1..] == half;
    }
  }

  lemma {:induction false} UndoSlash(key: string)
    ensures Undo(Escape(key), '1', '/') == HalfEscape(key)
  {
    if key != "" {
      EscapeStep(key);
      UndoSlash(key[1..]);
      var e, rest := Escape(key), Escape(key[1..]);
      if key[0] == '/' {
        assert e[2..] == rest;
      } else if key[0] == '~' {
        assert e[1..] == "0" + rest && ("0" + rest)[1..] == rest;
        assert Undo("0" + rest, '1', '/') == "0" + Undo(rest, '1', '/');
      } else {
        assert e[1..] == rest;
      }
    }
  }

  lemma {:induction false} UndoTilde(key: string)
    ensures Undo(HalfEscape(key), '0', '~') == key
  {
    if key != "" {
      EscapeStep(key);
      UndoTilde(key[1..]);
      var e, rest := HalfEscape(key), HalfEscape(key[1..]);
      if key[0] == '~' {
        assert e[2..] == rest;
      } else {
        assert e[1..] == rest;
      }
    }
  }

  lemma EscapeEmpty()
    ensures Escape("") == ""
  {
  }

  lemma NoTokens()
    ensures Tokens(Pointer([])) == []
  {
  }

  lemma TokensStep(e: string, rest: string)
    requires UntilSlash(e + rest) == |e|
    ensures Tokens("/" + (e + rest)) == [Unescape(e)] + Tokens(rest)
  {
    hide UntilSlash, Unescape;
    assert ("/" + (e + rest))[1..] == e + rest;
    assert (e + rest)[..|e|] == e && (e + rest)[|e|..] == rest;
  }

  lemma UnescapeEscape(key: string)
    ensures Unescape(Escape(key)) == key
  {
    UndoSlash(key);
    UndoTilde(key);
  }

  lemma {:induction false} NoSlash(key: string, rest: string)
    requires rest == "" || rest[0] == '/'
    ensures UntilSlash(Escape(key) + rest) == |Escape(key)|
  {
    hide Escape;
    if key == "" {
      EscapeEmpty();
      assert "" + rest == rest;
    } else {
      EscapeStep(key);
      NoSlash(key[1..], rest);
      var all, tail := Escape(key) + rest, Escape(key[1..]) + rest;
      if |EscapeChar(key[0])| == 2 {
        assert all[1..][1..] == tail;
      } else {
        assert all[1..] == tail;
      }
    }
  }

  /** Reading a written pointer gives back the keys. */
  lemma {:induction false} TokensOfPointer(keys: seq<string>)
    ensures Tokens(Pointer(keys)) == keys
  {
    hide Escape, Unescape, UntilSlash, Tokens;
    if keys == [] {
      NoTokens();
    } else {
      var e, rest := Escape(keys[0]), Pointer(keys[1..]);
      TokensOfPointer(keys[1..]);
      UnescapeEscape(keys[0]);
      NoSlash(keys[0], rest);
      TokensStep(e, rest);
      assert Pointer(keys) == "/" + (e + rest);
    }
  }

  lemma PointerOne(key: string)
    ensures Pointer([key]) == "/" + Escape(key)
  {
    assert [key][1..] == [];
  }
}
