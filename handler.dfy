/**
 * The message handler (`on_message`): decode the payload, take its
 * `codes`, resolve them, join them with `;` and write the bytes to the
 * device, all inside a catch-all so that no failure leaves the handler.
 */
module Handler {
  import opened Wrappers
  import opened Numerals
  import opened Aliases
  import opened Resolver
  import opened Command

  /** An inbound payload as the UTF-8 and JSON decoders leave it. */
  datatype Payload =
    | Garbled                       // not UTF-8 text, or not a JSON document
    | NotObject                     // a JSON list, string, number, boolean or null
    | NoCodes                       // an object without a "codes" member
    | CodesScalar                   // "codes" is a number, boolean or null
    | CodesField(items: seq<Item>)  // what iterating over "codes" yields

  /** What happened to one message. */
  datatype Outcome = Sent(command: string) | Dropped(reason: Failure)

  /**
   * The command string for a payload, or the reason the message is
   * dropped. Every failure before the write is one of these errors.
   */
  function CommandFor(aliases: AliasTable, payload: Payload): (r: Result<string, Failure>)
    ensures r.Ok? <==> payload.CodesField? && GetCodes(aliases, payload.items).Ok?
    ensures r.Err? ==> r.error != WriteFailed
    ensures payload.Garbled? ==> r == Err(Undecodable)
    ensures payload.NotObject? ==> r == Err(NotAnObject)
    ensures payload.NoCodes? ==> r == Err(MissingCodes)
    ensures payload.CodesScalar? ==> r == Err(CodesNotIterable)
    ensures payload.CodesField? && r.Err? ==> r.error == GetCodes(aliases, payload.items).error
    ensures r.Ok? ==> IsAscii(r.value) && forall k :: 0 <= k < |r.value| ==> CommandChar(r.value[k])
    ensures r.Ok? && payload.items != [] ==> Split(r.value) == GetCodes(aliases, payload.items).value
    ensures r.Ok? && payload.items == [] ==> r.value == ""
  {
    match payload
    case Garbled => Err(Undecodable)
    case NotObject => Err(NotAnObject)
    case NoCodes => Err(MissingCodes)
    case CodesScalar => Err(CodesNotIterable)
    case CodesField(items) =>
      match GetCodes(aliases, items)
      case Err(e) => Err(e)
      case Ok(codes) =>
        JoinedCodes(aliases, items);
        Ok(Join(codes))
  }

  /** The join of a successful resolution is made of digits and
      separators, and splits back into the resolved numerals. */
  lemma JoinedCodes(aliases: AliasTable, items: seq<Item>)
    requires GetCodes(aliases, items).Ok?
    ensures var s := Join(GetCodes(aliases, items).value);
      IsAscii(s) && (forall k :: 0 <= k < |s| ==> CommandChar(s[k])) &&
      (items != [] ==> Split(s) == GetCodes(aliases, items).value)
  {
    var codes := GetCodes(aliases, items).value;
    forall i | 0 <= i < |codes| ensures IsNumeral(Dec, codes[i]) {
      ResolvedNumeral(aliases, items[i]);
    }
    JoinChars(codes);
    var s := Join(codes);
    forall k | 0 <= k < |s| ensures s[k] as int < 128 {
      assert CommandChar(s[k]);
    }
    if items != [] {
      SplitJoin(codes);
    }
  }

  /** The serial device, seen as the log of the writes made to it. */
  class Device {
    var writes: seq<seq<byte>>

    constructor ()
      ensures writes == []
    {
      writes := [];
    }

    method Write(data: seq<byte>)
      modifies this
      ensures writes == old(writes) + [data]
    {
      writes := writes + [data];
    }
  }

  /**
   * Handle one message. A message that yields a command string costs
   * exactly one write, of that string's bytes; any other message costs
   * none. Whether the transport rejects the write is the parameter
   * `writeRaises`: the write has then been attempted and the message is
   * reported dropped. The method always returns normally.
   */
  method OnMessage(aliases: AliasTable, payload: Payload, device: Device, writeRaises: bool)
    returns (outcome: Outcome)
    modifies device
    ensures CommandFor(aliases, payload).Ok? ==>
      var command := CommandFor(aliases, payload).value;
      device.writes == old(device.writes) + [Encode(command)] &&
      outcome == if writeRaises then Dropped(WriteFailed) else Sent(command)
    ensures CommandFor(aliases, payload).Err? ==>
      device.writes == old(device.writes) && outcome == Dropped(CommandFor(aliases, payload).error)
  {
    var items: seq<Item>;
    match payload {
      case Garbled => return Dropped(Undecodable);
      case NotObject => return Dropped(NotAnObject);
      case NoCodes => return Dropped(MissingCodes);
      case CodesScalar => return Dropped(CodesNotIterable);
      case CodesField(xs) => items := xs;
    }
    var resolved := GetCodes(aliases, items);
    if resolved.Err? {
      return Dropped(resolved.error);
    }
    var command := Join(resolved.value);
    assert command == CommandFor(aliases, payload).value;
    device.Write(Encode(command));
    if writeRaises {
      outcome := Dropped(WriteFailed);
    } else {
      outcome := Sent(command);
    }
  }

  /** The device reads back exactly the resolved numerals of a message
      with at least one code. */
  lemma DeviceRecoversCodes(aliases: AliasTable, payload: Payload)
    requires CommandFor(aliases, payload).Ok? && payload.items != []
    ensures Split(Decode(Encode(CommandFor(aliases, payload).value))) == GetCodes(aliases, payload.items).value
  {
    EncodeDecode(CommandFor(aliases, payload).value);
  }
}

/** Worked examples of the handler on concrete messages. */
module HandlerExamples {
  import opened Wrappers
  import opened Numerals
  import opened Resolver
  import opened Command
  import opened Handler

  lemma PrintsAs(n: nat, s: string)
    requires IsNumeral(Dec, s) && IsCanonical(s) && Value(Dec, s) == n
    ensures DecimalString(n) == s
  {
    CanonicalDecimalUnique(s);
  }

  lemma PowerHex()
    ensures Parse(Hex, "E0E040BF") == Some(3772793023)
  {
    assert Parse(Hex, "E") == Some(14);
    ParseSnoc(Hex, "E", '0');
    assert "E" + ['0'] == "E0";
    assert Parse(Hex, "E0") == Some(224);
    ParseSnoc(Hex, "E0", 'E');
    assert "E0" + ['E'] == "E0E";
    assert Parse(Hex, "E0E") == Some(3598);
    ParseSnoc(Hex, "E0E", '0');
    assert "E0E" + ['0'] == "E0E0";
    assert Parse(Hex, "E0E0") == Some(57568);
    ParseSnoc(Hex, "E0E0", '4');
    assert "E0E0" + ['4'] == "E0E04";
    assert Parse(Hex, "E0E04") == Some(921092);
    ParseSnoc(Hex, "E0E04", '0');
    assert "E0E04" + ['0'] == "E0E040";
    assert Parse(Hex, "E0E040") == Some(14737472);
    ParseSnoc(Hex, "E0E040", 'B');
    assert "E0E040" + ['B'] == "E0E040B";
    assert Parse(Hex, "E0E040B") == Some(235799563);
    ParseSnoc(Hex, "E0E040B", 'F');
    assert "E0E040B" + ['F'] == "E0E040BF";
    assert Parse(Hex, "E0E040BF") == Some(3772793023);
  }

  lemma PowerDecimal()
    ensures Parse(Dec, "3772793023") == Some(3772793023)
  {
  }

  lemma PowerPrinted()
    ensures DecimalString(3772793023) == "3772793023"
  {
    PowerDecimal();
    assert IsCanonical("3772793023");
    PrintsAs(3772793023, "3772793023");
  }

  lemma LiteralHex()
    ensures Parse(Hex, "1A2B3C4D") == Some(439041101)
  {
    assert Parse(Hex, "1") == Some(1);
    ParseSnoc(Hex, "1", 'A');
    assert "1" + ['A'] == "1A";
    assert Parse(Hex, "1A") == Some(26);
    ParseSnoc(Hex, "1A", '2');
    assert "1A" + ['2'] == "1A2";
    assert Parse(Hex, "1A2") == Some(418);
    ParseSnoc(Hex, "1A2", 'B');
    assert "1A2" + ['B'] == "1A2B";
    assert Parse(Hex, "1A2B") == Some(6699);
    ParseSnoc(Hex, "1A2B", '3');
    assert "1A2B" + ['3'] == "1A2B3";
    assert Parse(Hex, "1A2B3") == Some(107187);
    ParseSnoc(Hex, "1A2B3", 'C');
    assert "1A2B3" + ['C'] == "1A2B3C";
    assert Parse(Hex, "1A2B3C") == Some(1715004);
    ParseSnoc(Hex, "1A2B3C", '4');
    assert "1A2B3C" + ['4'] == "1A2B3C4";
    assert Parse(Hex, "1A2B3C4") == Some(27440068);
    ParseSnoc(Hex, "1A2B3C4", 'D');
    assert "1A2B3C4" + ['D'] == "1A2B3C4D";
    assert Parse(Hex, "1A2B3C4D") == Some(439041101);
  }

  lemma LiteralDecimal()
    ensures Parse(Dec, "439041101") == Some(439041101)
  {
  }

  lemma LiteralPrinted()
    ensures DecimalString(439041101) == "439041101"
  {
    LiteralDecimal();
    assert IsCanonical("439041101");
    PrintsAs(439041101, "439041101");
  }

  lemma PowerResolves(aliases: map<string, string>)
    requires aliases == map["power" := "E0E040BF"]
    ensures ResolveItem(aliases, Str("power")) == Ok("3772793023")
  {
    assert ChosenHex(aliases, "power") == "E0E040BF";
    PowerHex();
    PowerPrinted();
  }

  lemma LiteralResolves(aliases: map<string, string>)
    requires aliases == map["power" := "E0E040BF"]
    ensures ResolveItem(aliases, Str("1A2B3C4D")) == Ok("439041101")
  {
    assert ChosenHex(aliases, "1A2B3C4D") == "1A2B3C4D";
    LiteralHex();
    LiteralPrinted();
  }

  lemma TwoItems(aliases: map<string, string>, items: seq<Item>, a: string, b: string)
    requires |items| == 2
    requires ResolveItem(aliases, items[0]) == Ok(a) && ResolveItem(aliases, items[1]) == Ok(b)
    ensures GetCodes(aliases, items) == Ok([a, b])
  {
    GetCodesOk(aliases, items, [a, b]);
  }

  lemma CommandOfResolved(aliases: map<string, string>, payload: Payload, codes: seq<string>)
    requires payload.CodesField? && GetCodes(aliases, payload.items) == Ok(codes)
    ensures CommandFor(aliases, payload) == Ok(Join(codes))
  {
  }

  lemma JoinTwo(a: string, b: string)
    ensures Join([a, b]) == a + [Separator] + b
  {
    assert [a, b][1..] == [b];
  }

  lemma CommandText()
    ensures "3772793023" + [Separator] + "439041101" == "3772793023;439041101"
  {
  }

  /** An alias and a literal code: the command string holds the decimal
      values of E0E040BF and 1A2B3C4D, in that order. */
  lemma AliasAndLiteral(aliases: map<string, string>, payload: Payload)
    requires aliases == map["power" := "E0E040BF"]
    requires payload == CodesField([Str("power"), Str("1A2B3C4D")])
    ensures CommandFor(aliases, payload) == Ok("3772793023;439041101")
  {
    var a, b := "3772793023", "439041101";
    assert GetCodes(aliases, payload.items) == Ok([a, b]) by {
      PowerResolves(aliases);
      LiteralResolves(aliases);
      TwoItems(aliases, payload.items, a, b);
    }
    CommandOfResolved(aliases, payload, [a, b]);
    JoinTwo(a, b);
    CommandText();
  }

  /** A token that is neither an alias nor hexadecimal drops the message. */
  lemma InvalidTokenDropped()
    ensures CommandFor(map[], CodesField([Str("ZZZZ")])) == Err(InvalidHex("ZZZZ"))
  {
    assert Parse(Hex, "ZZZZ") == None;
  }

  /** An empty list of codes still yields one (empty) command. */
  lemma EmptyCodesEmptyCommand(aliases: map<string, string>)
    ensures CommandFor(aliases, CodesField([])) == Ok("")
  {
  }
}
