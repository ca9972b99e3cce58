/** The Exchange Online subnet list: the `ips` of the Office 365 endpoint
    records whose service area is Exchange, in record order. */
module Exchange {
  import opened Wrappers

  /** One endpoint record of the worldwide endpoints feed, as far as the
      script reads it. */
  datatype Endpoint = Endpoint(serviceArea: Option<string>, ips: Option<seq<string>>)

  /** The result of fetching and decoding the feed. */
  datatype Fetched =
    | RequestFailed                  // a RequestException, including an error status
    | InvalidJson                    // the body is not JSON (ValueError)
    | Records(records: seq<Endpoint>)

  /** `data`: the records, or the empty list after either handled error. */
  function Data(f: Fetched): (data: seq<Endpoint>)
    ensures !f.Records? ==> data == []
  {
    if f.Records? then f.records else []
  }

  /** What one record adds to the list: its `ips` (empty when missing) if it
      is an Exchange record, nothing otherwise. */
  function Contribution(e: Endpoint): seq<string> {
    if e.serviceArea == Some("Exchange") then e.ips.GetOr([]) else []
  }

  /** Reference definition: the contributions of all records, concatenated
      in record order. The list is as long as the Exchange records' `ips`
      together, so duplicates across records are kept. */
  function ExchangeIps(data: seq<Endpoint>): (ips: seq<string>)
    ensures |ips| == IpCount(data)
  {
    if |data| == 0 then [] else Contribution(data[0]) + ExchangeIps(data[1..])
  }

  /** The total length of the Exchange records' `ips`. */
  function IpCount(data: seq<Endpoint>): nat {
    if |data| == 0 then 0
    else (if data[0].serviceArea == Some("Exchange") && data[0].ips.Some? then |data[0].ips.value| else 0) + IpCount(data[1..])
  }

  /** Why the loop stops: `record['serviceArea']` on a record without one
      raises `KeyError`. */
  datatype LoopError = MissingServiceArea(index: nat)

  /** The filtering loop. It stops at the first record without a service
      area; otherwise its list is the reference concatenation. */
  method CollectSubnets(data: seq<Endpoint>) returns (r: Result<seq<string>, LoopError>)
    ensures r.Failure? <==> exists i | 0 <= i < |data| :: data[i].serviceArea.None?
    ensures r.Failure? ==>
              && r.error.index < |data| && data[r.error.index].serviceArea.None?
              && forall i | 0 <= i < r.error.index :: data[i].serviceArea.Some?
    ensures r.Success? ==> r.value == ExchangeIps(data)
  {
    var subnets: seq<string> := [];
    var n := 0;
    while n < |data|
      invariant n <= |data|
      invariant forall i | 0 <= i < n :: data[i].serviceArea.Some?
      invariant subnets == ExchangeIps(data[..n])
    {
      var record := data[n];
      if record.serviceArea.None? {
        return Failure(MissingServiceArea(n));
      }
      if record.serviceArea.value == "Exchange" {
        subnets := subnets + record.ips.GetOr([]);
      }
      ExchangeIpsAppend(data[..n], [record]);
      assert data[..n + 1] == data[..n] + [record];
      n := n + 1;
    }
    assert data[..n] == data;
    return Success(subnets);
  }

  /** The script: fetch, fall back to no records on a handled error, filter. */
  method ExchangeOnlineSubnets(fetched: Fetched) returns (r: Result<seq<string>, LoopError>)
    ensures !fetched.Records? ==> r == Success([])
    ensures r.Success? ==> r.value == ExchangeIps(Data(fetched))
    ensures r.Failure? <==> exists i | 0 <= i < |Data(fetched)| :: Data(fetched)[i].serviceArea.None?
  {
    r := CollectSubnets(Data(fetched));
  }

  /** The reference distributes over concatenation of the records. */
  lemma {:induction false} ExchangeIpsAppend(a: seq<Endpoint>, b: seq<Endpoint>)
    ensures ExchangeIps(a + b) == ExchangeIps(a) + ExchangeIps(b)
  {
    if |a| > 0 {
      assert (a + b)[1..] == a[1..] + b;
      ExchangeIpsAppend(a[1..], b);
    } else {
      assert a + b == b;
    }
  }

  /** A record of another service area, or an Exchange record without
      `ips`, adds nothing wherever it stands. */
  lemma DropsNothingElse(a: seq<Endpoint>, e: Endpoint, b: seq<Endpoint>)
    requires e.serviceArea != Some("Exchange") || e.ips.None?
    ensures ExchangeIps(a + [e] + b) == ExchangeIps(a + b)
  {
    ExchangeIpsAppend(a + [e], b);
    ExchangeIpsAppend(a, [e]);
    ExchangeIpsAppend(a, b);
    ExchangeIpsSingle(e);
  }

  lemma ExchangeIpsSingle(e: Endpoint)
    ensures ExchangeIps([e]) == Contribution(e)
  {
    assert [e][1..] == [];
  }

  /** A subnet is listed exactly when some Exchange record lists it. */
  lemma {:induction false} ListedIff(data: seq<Endpoint>, ip: string)
    ensures ip in ExchangeIps(data) <==>
              exists i | 0 <= i < |data| ::
                data[i].serviceArea == Some("Exchange") && data[i].ips.Some? && ip in data[i].ips.value
  {
    if |data| > 0 {
      ListedIff(data[1..], ip);
      if ip in ExchangeIps(data[1..]) {
        var i :| 0 <= i < |data[1..]| && data[1..][i].serviceArea == Some("Exchange")
                  && data[1..][i].ips.Some? && ip in data[1..][i].ips.value;
        assert data[i + 1] == data[1..][i];
      }
      if exists i | 0 <= i < |data| ::
           data[i].serviceArea == Some("Exchange") && data[i].ips.Some? && ip in data[i].ips.value {
        var i :| 0 <= i < |data| && data[i].serviceArea == Some("Exchange")
                  && data[i].ips.Some? && ip in data[i].ips.value;
        if i > 0 {
          assert data[1..][i - 1] == data[i];
        }
      }
    }
  }
}
