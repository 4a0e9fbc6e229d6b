/** The serial port's fan-out: every byte printed goes to the wire and to the screen. */
module Serial {
  import opened Machine
  import opened Transcript
  import opened Console

  lemma CrlfSnoc(before: seq<uint8>, s: seq<uint8>, i: nat)
    requires i < |s|
    ensures before + Crlf(s[..i]) + Sent(s[i]) == before + Crlf(s[..i + 1])
  {
    CrlfConcat(s[..i], [s[i]]);
    assert s[..i + 1] == s[..i] + [s[i]];
    assert Crlf([s[i]]) == Sent(s[i]) + [];
  }

  class SerialPort {
    /** The bytes handed to the UART, in order. */
    var wire: seq<uint8>
    const screen: Console?

    ghost predicate Valid()
      reads this, screen, if screen == null then {} else {screen.pixels}
    {
      screen != null ==> screen.Valid()
    }

    constructor (screen: Console?)
      requires screen != null ==> screen.Valid()
      ensures Valid() && this.screen == screen && wire == []
    {
      this.screen, wire := screen, [];
    }

    /** One byte to the UART, then to the console if there is one. */
    method Emit(byte: uint8)
      requires Valid()
      modifies this, screen, if screen == null then {} else {screen.pixels}
      ensures Valid() && wire == old(wire) + [byte]
      ensures screen != null ==> screen.transcript == old(screen.transcript) + [byte]
    {
      wire := wire + [byte];
      if screen != null {
        screen.WriteByte(byte);
      }
    }

    /** One byte of text: terminals expect a return before each newline. */
    method EmitText(byte: uint8)
      requires Valid()
      modifies this, screen, if screen == null then {} else {screen.pixels}
      ensures Valid() && wire == old(wire) + Sent(byte)
      ensures screen != null ==> screen.transcript == old(screen.transcript) + Sent(byte)
    {
      if byte == NEWLINE {
        Emit(RETURN);
      }
      Emit(byte);
    }

    /** `write_str`. */
    method WriteStr(s: seq<uint8>)
      requires Valid()
      modifies this, screen, if screen == null then {} else {screen.pixels}
      ensures Valid() && wire == old(wire) + Crlf(s)
      ensures screen != null ==> screen.transcript == old(screen.transcript) + Crlf(s)
    {
      for i := 0 to |s|
        invariant Valid() && wire == old(wire) + Crlf(s[..i])
        invariant screen != null ==> screen.transcript == old(screen.transcript) + Crlf(s[..i])
      {
        CrlfSnoc(old(wire), s, i);
        if screen != null { CrlfSnoc(old(screen.transcript), s, i); }
        EmitText(s[i]);
      }
      assert s[..|s|] == s;
    }
  }

  function Join(strings: seq<seq<uint8>>): seq<uint8> {
    if strings == [] then [] else strings[0] + Join(strings[1..])
  }

  /** What a sequence of `write_str` calls sends. */
  function CrlfAll(strings: seq<seq<uint8>>): seq<uint8> {
    if strings == [] then [] else Crlf(strings[0]) + CrlfAll(strings[1..])
  }

  lemma {:induction false} CrlfOfJoin(strings: seq<seq<uint8>>)
    ensures CrlfAll(strings) == Crlf(Join(strings))
  {
    if strings != [] {
      CrlfOfJoin(strings[1..]);
      CrlfConcat(strings[0], Join(strings[1..]));
    }
  }

  /** The screen's rows after any number of `write_str` calls are those of the
      strings themselves: the added returns never show. */
  lemma PrintedRows(strings: seq<seq<uint8>>, w: nat)
    requires w > 0
    ensures Rows(CrlfAll(strings), w) == Rows(Join(strings), w)
  {
    CrlfOfJoin(strings);
    CrlfInvisible(Join(strings), []);
    assert Crlf(Join(strings)) + [] == Crlf(Join(strings)) && Join(strings) + [] == Join(strings);
  }
}
