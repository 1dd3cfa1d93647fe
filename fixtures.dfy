/** The request table of main.c and how the outer loop picks from it. */
module Fixtures {

  /** A test fixture: a URL and whether HTTP/2 is requested. */
  datatype Request = Request(url: string, http2: bool)

  const DataUrl: string := "https://lgud-hkhan2.corp.netflix.com:8081/files/data-100k"

  /** The fixture table `requests[]`. */
  const Requests: seq<Request> := [
    Request(DataUrl, true),
    Request(DataUrl, true),
    Request("http://www.vg.no", false)
  ]

  /** `idx % (sizeof(requests) / sizeof(requests[0]))` */
  function FixtureIndex(idx: nat): (i: nat)
    ensures i < |Requests|
    ensures idx < |Requests| ==> i == idx
  {
    idx % |Requests|
  }

  /** Request `idx + 3` reuses the fixture of request `idx`. */
  lemma FixtureCycle(idx: nat)
    ensures FixtureIndex(idx + |Requests|) == FixtureIndex(idx)
  {
  }

  /** The fixture indices of requests 0 .. n - 1, in order. */
  function Schedule(n: nat): (s: seq<nat>)
    ensures |s| == n
  {
    if n == 0 then [] else Schedule(n - 1) + [FixtureIndex(n - 1)]
  }

  /** Request `idx` uses `requests[idx % 3]`, a valid index of the table. */
  lemma {:induction false} ScheduleAt(n: nat, idx: nat)
    requires idx < n
    ensures Schedule(n)[idx] == idx % 3 && Schedule(n)[idx] < |Requests|
  {
    if idx < n - 1 {
      ScheduleAt(n - 1, idx);
    }
  }

  /** The table indices in table order. */
  const TableOrder: seq<nat> := [0, 1, 2]

  /** The table order repeated `k` times. */
  function Repeat(k: nat): (s: seq<nat>)
    ensures |s| == 3 * k
  {
    if k == 0 then [] else Repeat(k - 1) + TableOrder
  }

  /** Three requests from a multiple of three go through the table once. */
  lemma ScheduleWholeTable(n: nat)
    requires n % 3 == 0
    ensures Schedule(n + 3) == Schedule(n) + TableOrder
  {
    assert FixtureIndex(n) == 0 && FixtureIndex(n + 1) == 1 && FixtureIndex(n + 2) == 2;
    calc {
      Schedule(n + 3);
      Schedule(n + 2) + [2];
      Schedule(n + 1) + [1] + [2];
      Schedule(n) + [0] + [1] + [2];
      Schedule(n) + TableOrder;
    }
  }

  /** The fixtures are visited cyclically in table order: `3k` requests go
      through the table `k` times over. */
  lemma {:induction false} ScheduleCycles(k: nat)
    ensures Schedule(3 * k) == Repeat(k)
  {
    if k > 0 {
      var n := 3 * k - 3;
      ScheduleCycles(k - 1);
      ScheduleWholeTable(n);
      assert Schedule(3 * k) == Schedule(n) + TableOrder;
      assert Repeat(k) == Repeat(k - 1) + TableOrder;
    }
  }
}
