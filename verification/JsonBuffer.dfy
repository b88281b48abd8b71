/** The growing text buffer of src/json_writer.c. */
module JsonBuffer {
  import opened Json

  /** Doubling from `cap` until `need` characters fit. */
  function Doubled(cap: nat, need: nat): (r: nat)
    requires 0 < cap
    ensures r >= need && r >= cap
    ensures r == cap || r < 2 * need
    decreases if cap < need then need - cap else 0
  {
    if need > cap then Doubled(cap * 2, need) else cap
  }

  class Buffer {
    var data: array<char>
    var len: nat

    /** Empty after `Take`; otherwise there is room for the terminator, and it is there. */
    ghost predicate Valid()
      reads this, data
    {
      if data.Length == 0 then len == 0 else len + 1 <= data.Length && data[len] == NUL
    }

    function Contents(): (s: string)
      requires Valid()
      reads this, data
    {
      data[..len]
    }

    constructor ()
      ensures Valid() && fresh(data) && Contents() == "" && data.Length == 256
    {
      data := new char[256](_ => NUL);
      len := 0;
    }

    /** json_ensure_capacity: the capacity doubles, and so stays below twice what was asked for. */
    method EnsureCapacity(required: nat)
      requires Valid()
      modifies this
      ensures len == old(len) && (data == old(data) || fresh(data))
      ensures required + 1 <= data.Length
      ensures data.Length == old(data.Length) || data.Length == 256 || data.Length < 2 * (required + 1)
      ensures old(data.Length) <= data.Length
      ensures len <= data.Length && data[..len] == old(data[..len])
      ensures old(data.Length) > 0 ==> Valid()
    {
      if required + 1 <= data.Length {
        return;
      }
      var cap := if data.Length == 0 then 256 else data.Length;
      var start := cap;
      while required + 1 > cap
        invariant 0 < start <= cap && Doubled(cap, required + 1) == Doubled(start, required + 1)
        decreases required + 1 - cap
      {
        cap := cap * 2;
      }
      var was := data;
      var grown := new char[cap](i requires 0 <= i reads was => if i < was.Length then was[i] else NUL);
      data := grown;
      assert data[..len] == was[..len];
    }

    /** json_append. */
    method Append(text: string)
      requires Valid()
      modifies this, data
      ensures Valid() && data.Length > 0 && (data == old(data) || fresh(data))
      ensures Contents() == old(Contents()) + text
    {
      ghost var was := Contents();
      EnsureCapacity(len + |text|);
      Write(text);
      len := len + |text|;
      assert Contents() == was + text;
    }

    /** The memcpy with its terminator. */
    method Write(text: string)
      requires len + |text| + 1 <= data.Length
      modifies data
      ensures data[..len] == old(data[..len])
      ensures data[len..len + |text|] == text && data[len + |text|] == NUL
    {
      var i := 0;
      while i < |text|
        invariant i <= |text|
        invariant data[..len] == old(data[..len])
        invariant data[len..len + i] == text[..i]
      {
        data[len + i] := text[i];
        assert data[len..len + i + 1] == data[len..len + i] + [text[i]];
        i := i + 1;
      }
      assert text[..|text|] == text;
      data[len + |text|] := NUL;
    }

    /** json_append_char. */
    method AppendChar(ch: char)
      requires Valid()
      modifies this, data
      ensures Valid() && data.Length > 0 && (data == old(data) || fresh(data))
      ensures Contents() == old(Contents()) + [ch]
    {
      ghost var was := Contents();
      EnsureCapacity(len + 1);
      data[len] := ch;
      len := len + 1;
      data[len] := NUL;
      assert Contents() == was + [ch];
    }

    /** The switch of json_append_escaped_string. */
    method AppendEscaped(ch: char)
      requires Valid()
      modifies this, data
      ensures Valid() && data.Length > 0 && (data == old(data) || fresh(data))
      ensures Contents() == old(Contents()) + EscapeChar(ch)
    {
      if ch == QUOTE {
        Append([BACKSLASH, QUOTE]);
      } else if ch == BACKSLASH {
        Append([BACKSLASH, BACKSLASH]);
      } else if ch == NEWLINE {
        Append([BACKSLASH, 'n']);
      } else if ch == RETURN {
        Append([BACKSLASH, 'r']);
      } else if ch == TAB {
        Append([BACKSLASH, 't']);
      } else if ch < 32 as char {
        Append([BACKSLASH, 'u', '0', '0', HexDigit(ch as int / 16), HexDigit(ch as int % 16)]);
      } else {
        AppendChar(ch);
      }
    }

    /** json_append_escaped_string. */
    method AppendEscapedString(text: string)
      requires Valid()
      modifies this, data
      ensures Valid() && data.Length > 0 && (data == old(data) || fresh(data))
      ensures Contents() == old(Contents()) + QuoteText(text)
    {
      hide EscapeChar, EscapeBody;
      AppendChar(QUOTE);
      ghost var start := Contents();
      EscapeNothing();
      for i := 0 to |text|
        invariant Valid() && data.Length > 0 && (data == old(data) || fresh(data))
        invariant Contents() == start + EscapeBody(text[..i])
      {
        EscapeBodySnoc(text[..i], text[i]);
        assert text[..i + 1] == text[..i] + [text[i]];
        AppendEscaped(text[i]);
      }
      assert text[..|text|] == text;
      AppendChar(QUOTE);
    }

    /** json_buffer_take. */
    method Take() returns (text: string)
      requires Valid()
      modifies this
      ensures Valid() && fresh(data) && Contents() == "" && text == old(Contents())
    {
      text := data[..len];
      data := new char[0];
      len := 0;
    }
  }

  lemma EscapeNothing()
    ensures EscapeBody("") == ""
  {
  }

  lemma {:induction false} EscapeBodySnoc(text: string, c: char)
    ensures EscapeBody(text + [c]) == EscapeBody(text) + EscapeChar(c)
  {
    if text == "" {
      assert text + [c] == [c] && [c][1..] == "";
    } else {
      assert (text + [c])[1..] == text[1..] + [c];
      EscapeBodySnoc(text[1..], c);
    }
  }
}
