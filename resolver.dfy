/**
 * Code resolution (`get_codes`): each token of an inbound command is
 * replaced by its alias when it names one, read as a hexadecimal number
 * and re-emitted as a decimal numeral.
 */
module Resolver {
  import opened Wrappers
  import opened Numerals
  import opened Aliases

  /** One element produced by iterating over the message's `codes` value.
      Only strings can be resolved: any other JSON value makes the alias
      lookup or `int(x, 16)` raise a TypeError. */
  datatype Item = Str(s: string) | NonString

  /** Why a message was dropped; each case is one exception the handler
      catches. */
  datatype Failure =
    | Undecodable               // payload not UTF-8, or not JSON
    | NotAnObject               // payload["codes"] on a list, string, number, ...
    | MissingCodes              // KeyError: no "codes" member
    | CodesNotIterable          // "codes" is a number, boolean or null
    | NonStringCode             // an element of "codes" is not a string
    | InvalidHex(hex: string)   // ValueError from int(hex, 16)
    | WriteFailed               // the serial write raised

  /** The hexadecimal string a token stands for: its alias if it has one,
      the token itself otherwise. */
  function ChosenHex(aliases: AliasTable, token: string): string {
    if token in aliases then aliases[token] else token
  }

  /** Resolve one item to the decimal numeral of its hexadecimal value. */
  function ResolveItem(aliases: AliasTable, item: Item): (r: Result<string, Failure>)
    ensures item.NonString? ==> r == Err(NonStringCode)
    ensures item.Str? ==> (r.Ok? <==> IsNumeral(Hex, ChosenHex(aliases, item.s)))
    ensures item.Str? && r.Err? ==> r.error == InvalidHex(ChosenHex(aliases, item.s))
  {
    match item
    case NonString => Err(NonStringCode)
    case Str(token) =>
      var hex := ChosenHex(aliases, token);
      match Parse(Hex, hex)
      case None => Err(InvalidHex(hex))
      case Some(n) => Ok(DecimalString(n))
  }

  /** A resolved item is a canonical decimal numeral with the same value as
      the hexadecimal string the item stands for. */
  lemma ResolvedNumeral(aliases: AliasTable, item: Item)
    requires ResolveItem(aliases, item).Ok?
    ensures item.Str?
    ensures var r := ResolveItem(aliases, item).value;
      IsNumeral(Dec, r) && IsCanonical(r) && Parse(Dec, r) == Parse(Hex, ChosenHex(aliases, item.s))
  {
  }

  /**
   * Resolve every item, in order. The generator is consumed in full by
   * the join that follows it, so the first item that fails makes the
   * whole resolution fail with that item's error; otherwise there is
   * exactly one numeral per item, in the items' order.
   */
  function GetCodes(aliases: AliasTable, items: seq<Item>): (r: Result<seq<string>, Failure>)
    ensures r.Ok? <==> forall i :: 0 <= i < |items| ==> ResolveItem(aliases, items[i]).Ok?
    ensures r.Ok? ==> |r.value| == |items|
    ensures r.Ok? ==> forall i :: 0 <= i < |items| ==> r.value[i] == ResolveItem(aliases, items[i]).value
    ensures r.Err? ==> (exists k :: 0 <= k < |items| && FirstFailure(aliases, items, k) &&
                                    r.error == ResolveItem(aliases, items[k]).error)
  {
    if items == [] then Ok([])
    else
      var head := ResolveItem(aliases, items[0]);
      if head.Err? then
        assert FirstFailure(aliases, items, 0);
        Err(head.error)
      else
        var tail := GetCodes(aliases, items[1..]);
        if tail.Err? then
          FailureInTail(aliases, items, tail.error);
          Err(tail.error)
        else
          SuccessInTail(aliases, items, head.value, tail.value);
          Ok([head.value] + tail.value)
  }

  lemma FailureInTail(aliases: AliasTable, items: seq<Item>, e: Failure)
    requires |items| > 0 && ResolveItem(aliases, items[0]).Ok?
    requires exists k :: 0 <= k < |items| - 1 && FirstFailure(aliases, items[1..], k) &&
                         e == ResolveItem(aliases, items[1..][k]).error
    ensures !(forall i :: 0 <= i < |items| ==> ResolveItem(aliases, items[i]).Ok?)
    ensures exists k :: 0 <= k < |items| && FirstFailure(aliases, items, k) &&
                        e == ResolveItem(aliases, items[k]).error
  {
    var k :| 0 <= k < |items| - 1 && FirstFailure(aliases, items[1..], k) &&
      e == ResolveItem(aliases, items[1..][k]).error;
    assert items[1..][k] == items[k + 1];
    forall j | 0 <= j < k + 1 ensures ResolveItem(aliases, items[j]).Ok? {
      if j > 0 { assert items[j] == items[1..][j - 1]; }
    }
    assert FirstFailure(aliases, items, k + 1);
  }

  lemma SuccessInTail(aliases: AliasTable, items: seq<Item>, code: string, rest: seq<string>)
    requires |items| > 0 && ResolveItem(aliases, items[0]) == Ok(code)
    requires |rest| == |items| - 1
    requires forall i :: 0 <= i < |items| - 1 ==> ResolveItem(aliases, items[1..][i]) == Ok(rest[i])
    ensures forall i :: 0 <= i < |items| ==> ResolveItem(aliases, items[i]) == Ok(([code] + rest)[i])
  {
    forall i | 0 <= i < |items| ensures ResolveItem(aliases, items[i]) == Ok(([code] + rest)[i]) {
      if i > 0 { assert items[i] == items[1..][i - 1]; }
    }
  }

  /** Item `k` is the first item that does not resolve. */
  predicate FirstFailure(aliases: AliasTable, items: seq<Item>, k: nat)
    requires k < |items|
  {
    ResolveItem(aliases, items[k]).Err? &&
    forall j :: 0 <= j < k ==> ResolveItem(aliases, items[j]).Ok?
  }

  /** Each resolved numeral denotes the value of the aliased hexadecimal
      string for an alias, and of the token itself otherwise. */
  lemma {:induction false} ResolvedValues(aliases: AliasTable, items: seq<Item>, i: nat)
    requires GetCodes(aliases, items).Ok? && i < |items|
    ensures items[i].Str?
    ensures var hex := if items[i].s in aliases then aliases[items[i].s] else items[i].s;
      IsNumeral(Hex, hex) &&
      Parse(Dec, GetCodes(aliases, items).value[i]) == Some(Value(Hex, hex))
  {
    assert ResolveItem(aliases, items[i]).Ok?;
    ResolvedNumeral(aliases, items[i]);
  }

  /** At most one item is the first to fail. */
  lemma FirstFailureUnique(aliases: AliasTable, items: seq<Item>, k: nat, k': nat)
    requires k < |items| && k' < |items|
    requires FirstFailure(aliases, items, k) && FirstFailure(aliases, items, k')
    ensures k == k'
  {
  }

  /**
   * Resolution is a per-item map with no state carried from one item to
   * the next: resolving a concatenation resolves each part separately,
   * with the first part's failure taking precedence.
   */
  lemma GetCodesAppend(aliases: AliasTable, xs: seq<Item>, ys: seq<Item>)
    ensures GetCodes(aliases, xs + ys) ==
      match GetCodes(aliases, xs)
      case Err(e) => Err(e)
      case Ok(a) =>
        match GetCodes(aliases, ys)
        case Err(e) => Err(e)
        case Ok(b) => Ok(a + b)
  {
    if GetCodes(aliases, xs).Err? {
      AppendLeftFails(aliases, xs, ys);
    } else if GetCodes(aliases, ys).Err? {
      AppendRightFails(aliases, xs, ys);
    } else {
      AppendBothResolve(aliases, xs, ys);
    }
  }

  lemma AppendLeftFails(aliases: AliasTable, xs: seq<Item>, ys: seq<Item>)
    requires GetCodes(aliases, xs).Err?
    ensures GetCodes(aliases, xs + ys) == GetCodes(aliases, xs)
  {
    var zs := xs + ys;
    var rx, rz := GetCodes(aliases, xs), GetCodes(aliases, zs);
    var k :| 0 <= k < |xs| && FirstFailure(aliases, xs, k) && rx.error == ResolveItem(aliases, xs[k]).error;
    assert FirstFailure(aliases, zs, k) by {
      assert zs[k] == xs[k];
      forall j | 0 <= j < k ensures ResolveItem(aliases, zs[j]).Ok? {
        assert zs[j] == xs[j];
      }
    }
    var k' :| 0 <= k' < |zs| && FirstFailure(aliases, zs, k') && rz.error == ResolveItem(aliases, zs[k']).error;
    FirstFailureUnique(aliases, zs, k, k');
    assert zs[k] == xs[k];
  }

  lemma AppendRightFails(aliases: AliasTable, xs: seq<Item>, ys: seq<Item>)
    requires GetCodes(aliases, xs).Ok? && GetCodes(aliases, ys).Err?
    ensures GetCodes(aliases, xs + ys) == GetCodes(aliases, ys)
  {
    var zs := xs + ys;
    var ry, rz := GetCodes(aliases, ys), GetCodes(aliases, zs);
    var k :| 0 <= k < |ys| && FirstFailure(aliases, ys, k) && ry.error == ResolveItem(aliases, ys[k]).error;
    assert FirstFailure(aliases, zs, |xs| + k) by {
      assert zs[|xs| + k] == ys[k];
      forall j | 0 <= j < |xs| + k ensures ResolveItem(aliases, zs[j]).Ok? {
        if j < |xs| { assert zs[j] == xs[j]; } else { assert zs[j] == ys[j - |xs|]; }
      }
    }
    var k' :| 0 <= k' < |zs| && FirstFailure(aliases, zs, k') && rz.error == ResolveItem(aliases, zs[k']).error;
    FirstFailureUnique(aliases, zs, |xs| + k, k');
    assert zs[|xs| + k] == ys[k];
  }

  lemma AppendBothResolve(aliases: AliasTable, xs: seq<Item>, ys: seq<Item>)
    requires GetCodes(aliases, xs).Ok? && GetCodes(aliases, ys).Ok?
    ensures GetCodes(aliases, xs + ys) == Ok(GetCodes(aliases, xs).value + GetCodes(aliases, ys).value)
  {
    var zs := xs + ys;
    var a, b := GetCodes(aliases, xs).value, GetCodes(aliases, ys).value;
    forall i | 0 <= i < |zs| ensures ResolveItem(aliases, zs[i]) == Ok((a + b)[i]) {
      if i < |xs| {
        assert zs[i] == xs[i] && (a + b)[i] == a[i];
      } else {
        assert zs[i] == ys[i - |xs|] && (a + b)[i] == b[i - |xs|];
      }
    }
    GetCodesOk(aliases, zs, a + b);
  }

  /** Items that each resolve to a given numeral resolve together to the
      list of those numerals. */
  lemma GetCodesOk(aliases: AliasTable, items: seq<Item>, codes: seq<string>)
    requires |codes| == |items|
    requires forall i :: 0 <= i < |items| ==> ResolveItem(aliases, items[i]) == Ok(codes[i])
    ensures GetCodes(aliases, items) == Ok(codes)
  {
    var r := GetCodes(aliases, items);
    assert r.Ok?;
    assert r.value == codes by {
      forall i | 0 <= i < |items| ensures r.value[i] == codes[i] {
        assert ResolveItem(aliases, items[i]) == Ok(codes[i]);
      }
    }
  }

  /** An item whose hexadecimal string is not a numeral makes the whole
      list fail, wherever it stands. */
  lemma InvalidItemFailsAll(aliases: AliasTable, items: seq<Item>, k: nat)
    requires k < |items| && items[k].Str? && !IsNumeral(Hex, ChosenHex(aliases, items[k].s))
    ensures GetCodes(aliases, items).Err?
  {
    assert ResolveItem(aliases, items[k]).Err?;
  }
}
