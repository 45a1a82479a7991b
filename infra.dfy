/** The HTTP method table of OperationLog and the `__str__` formats of
    OperationLog and Notification (infra/models.py). */
module Infra {
  import opened Wrappers
  import opened Strings

  /** `OperationLog.HTTP_METHODS`: the stored small integer and the method name. */
  const HttpMethods: seq<(nat, string)> := [
    (0, "GET"),
    (1, "POST"),
    (2, "PUT"),
    (3, "PATCH"),
    (4, "DELETE"),
    (5, "HEAD"),
    (6, "OPTIONS"),
    (7, "TRACE")
  ]

  /** `{name: val for val, name in pairs}`: one entry per name; where a name
      occurs twice the later pair wins, as in a dict comprehension. */
  function NameToValue(pairs: seq<(nat, string)>): (m: map<string, nat>)
    ensures m.Keys == set i | 0 <= i < |pairs| :: pairs[i].1
    ensures forall name :: name in m ==> exists i :: 0 <= i < |pairs| && pairs[i] == (m[name], name)
    decreases |pairs|
  {
    if pairs == [] then map[]
    else
      var init := pairs[..|pairs| - 1];
      var last := pairs[|pairs| - 1];
      var m := NameToValue(init)[last.1 := last.0];
      assert forall i :: 0 <= i < |init| ==> init[i] == pairs[i];
      m
  }

  /** `OperationLog.HTTP_METHODS_DICT`. */
  const HttpMethodsDict: map<string, nat> := NameToValue(HttpMethods)

  predicate DistinctNames(pairs: seq<(nat, string)>) {
    forall i, j :: 0 <= i < j < |pairs| ==> pairs[i].1 != pairs[j].1
  }

  /** With distinct names the inverted dict sends every name to its own value. */
  lemma {:induction false} NameToValueAt(pairs: seq<(nat, string)>, i: nat)
    requires DistinctNames(pairs) && i < |pairs|
    ensures pairs[i].1 in NameToValue(pairs) && NameToValue(pairs)[pairs[i].1] == pairs[i].0
    decreases |pairs|
  {
    var init := pairs[..|pairs| - 1];
    if i < |pairs| - 1 {
      assert init[i] == pairs[i];
      assert DistinctNames(init) by {
        forall a, b | 0 <= a < b < |init| ensures init[a].1 != init[b].1 {
          assert init[a] == pairs[a] && init[b] == pairs[b];
        }
      }
      NameToValueAt(init, i);
    }
  }

  /** With distinct names the inverted dict has one entry per pair. */
  lemma {:induction false} NameToValueSize(pairs: seq<(nat, string)>)
    requires DistinctNames(pairs)
    ensures |NameToValue(pairs)| == |pairs|
    decreases |pairs|
  {
    if pairs != [] {
      var init := pairs[..|pairs| - 1];
      var last := pairs[|pairs| - 1];
      assert DistinctNames(init) by {
        forall a, b | 0 <= a < b < |init| ensures init[a].1 != init[b].1 {
          assert init[a] == pairs[a] && init[b] == pairs[b];
        }
      }
      NameToValueSize(init);
      assert last.1 !in NameToValue(init) by {
        forall k | 0 <= k < |init| ensures init[k].1 != last.1 {
          assert init[k] == pairs[k];
        }
      }
    }
  }

  lemma HttpMethodNamesDistinct()
    ensures DistinctNames(HttpMethods)
  {
    forall i, j | 0 <= i < j < |HttpMethods| ensures HttpMethods[i].1 != HttpMethods[j].1 {
      var a, b := HttpMethods[i].1, HttpMethods[j].1;
      assert |a| != |b| || a[0] != b[0];
    }
  }

  /** Every (val, name) of the table is found in HTTP_METHODS_DICT. */
  lemma HttpMethodsDictAt(i: nat)
    requires i < |HttpMethods|
    ensures HttpMethods[i].1 in HttpMethodsDict && HttpMethodsDict[HttpMethods[i].1] == HttpMethods[i].0
  {
    HttpMethodNamesDistinct();
    NameToValueAt(HttpMethods, i);
  }

  /** The dict has exactly the eight names. */
  lemma HttpMethodsDictSize()
    ensures |HttpMethodsDict| == 8
  {
    HttpMethodNamesDistinct();
    NameToValueSize(HttpMethods);
  }

  /** The example of the source's comment: HTTP_METHODS_DICT['POST'] gives 1. */
  lemma HttpPostIsOne()
    ensures "POST" in HttpMethodsDict && HttpMethodsDict["POST"] == 1
  {
    HttpMethodsDictAt(1);
  }

  /** Every stored value is also the pair's position in the table, so
      name -> value -> name round-trips. */
  lemma HttpMethodsRoundTrip(name: string)
    requires name in HttpMethodsDict
    ensures HttpMethodsDict[name] < |HttpMethods| && HttpMethods[HttpMethodsDict[name]].1 == name
  {
    var i :| 0 <= i < |HttpMethods| && HttpMethods[i] == (HttpMethodsDict[name], name);
    assert forall k :: 0 <= k < |HttpMethods| ==> HttpMethods[k].0 == k;
  }

  /** `OperationLog.__str__`: "{time}({requester_id} {method} {url})", with
      `method` the stored small integer. */
  function OperationLogString(time: string, requesterId: nat, httpMethod: nat, url: string): string {
    time + "(" + NatToString(requesterId) + " " + NatToString(httpMethod) + " " + url + ")"
  }

  /** The string opens with the time and a '(' and closes with a blank,
      the url and a ')'. */
  lemma OperationLogStringAffixes(time: string, requesterId: nat, httpMethod: nat, url: string)
    ensures StartsWith(OperationLogString(time, requesterId, httpMethod, url), time + "(")
    ensures EndsWith(OperationLogString(time, requesterId, httpMethod, url), " " + url + ")")
  {
    var head, mid := time + "(", NatToString(requesterId) + " " + NatToString(httpMethod);
    var s := OperationLogString(time, requesterId, httpMethod, url);
    assert s == head + (mid + (" " + url + ")"));
    assert s[..|head|] == head;
  }

  /** The position of the first `c` in `s`. */
  function IndexOf(s: string, c: char): (r: Option<nat>)
    ensures r.Some? ==> r.value < |s| && s[r.value] == c && c !in s[..r.value]
    ensures r.None? ==> c !in s
    decreases |s|
  {
    if s == [] then None
    else if s[0] == c then Some(0)
    else match IndexOf(s[1..], c)
         case None => None
         case Some(k) =>
           assert s[..k + 1] == [s[0]] + s[1..][..k];
           Some(k + 1)
  }

  lemma {:induction false} IndexOfAfterPiece(a: string, c: char, b: string)
    requires c !in a
    ensures IndexOf(a + [c] + b, c) == Some(|a|)
    decreases |a|
  {
    var s := a + [c] + b;
    if a != [] {
      assert s[1..] == a[1..] + [c] + b;
      IndexOfAfterPiece(a[1..], c, b);
    }
  }

  /** A decimal field ended by a blank: its value and what follows the blank. */
  function ParseNumberField(s: string): Option<(nat, string)> {
    match IndexOf(s, ' ')
    case None => None
    case Some(a) =>
      if AllDigits(s[..a]) then Some((DigitsValue(s[..a]), s[a + 1..])) else None
  }

  lemma ParseNumberFieldOf(n: nat, tail: string)
    ensures ParseNumberField(NatToString(n) + " " + tail) == Some((n, tail))
  {
    var d := NatToString(n);
    var s := d + " " + tail;
    assert ' ' !in d by { assert AllDigits(d); }
    assert s == d + [' '] + tail;
    IndexOfAfterPiece(d, ' ', tail);
    assert s[..|d|] == d && s[|d| + 1..] == tail;
    DigitsValueOfNatToString(n);
  }

  /** Reads an OperationLog string back into (time, requester, method, url). */
  function ParseOperationLog(s: string): Option<(string, nat, nat, string)> {
    match IndexOf(s, '(')
    case None => None
    case Some(k) =>
      match ParseNumberField(s[k + 1..])
      case None => None
      case Some((requesterId, rest)) =>
        match ParseNumberField(rest)
        case None => None
        case Some((httpMethod, tail)) =>
          if |tail| > 0 && tail[|tail| - 1] == ')' then
            Some((s[..k], requesterId, httpMethod, tail[..|tail| - 1]))
          else None
  }

  /** The string form determines the log's time, requester, method and url,
      as long as the time text has no '(' (a datetime never does). */
  lemma OperationLogStringParses(time: string, requesterId: nat, httpMethod: nat, url: string)
    requires '(' !in time
    ensures ParseOperationLog(OperationLogString(time, requesterId, httpMethod, url))
         == Some((time, requesterId, httpMethod, url))
  {
    var tail := url + ")";
    var rest := NatToString(httpMethod) + " " + tail;
    var fields := NatToString(requesterId) + " " + rest;
    var s := OperationLogString(time, requesterId, httpMethod, url);
    assert s == time + ['('] + fields;
    IndexOfAfterPiece(time, '(', fields);
    assert s[..|time|] == time && s[|time| + 1..] == fields;
    ParseNumberFieldOf(requesterId, rest);
    ParseNumberFieldOf(httpMethod, tail);
    assert tail[..|tail| - 1] == url;
  }

  /** `Notification.__str__`: '由{sender}于{time}发送给{recipient}的通知({state})'
      where the state is '已读' when a read time is set and '未读' otherwise. */
  function NotificationString(senderId: nat, time: string, recipientId: nat, readTime: Option<string>): (s: string)
    ensures EndsWith(s, "(已读)") <==> readTime.Some?
    ensures EndsWith(s, "(未读)") <==> readTime.None?
    ensures StartsWith(s, "由" + NatToString(senderId) + "于" + time + "发送给" + NatToString(recipientId) + "的通知(")
  {
    var head := "由" + NatToString(senderId) + "于" + time + "发送给" + NatToString(recipientId) + "的通知(";
    var state := if readTime.Some? then "已读" else "未读";
    var s := head + state + ")";
    assert s[..|head|] == head;
    assert s[|s| - 4..] == "(" + state + ")";
    assert "(未读)" != "(已读)" by { assert "(未读)"[1] != "(已读)"[1]; }
    s
  }
}
