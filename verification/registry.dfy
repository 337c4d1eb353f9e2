/** The download registry `jsList` (importJS.js lines 44-48, 102-115 and 314-326): one entry per
    absolute URL, with its download status, its text, its segments and its preprocessor. */
module Registry {
  import opened Js

  /** `jsListStatus`: WAIT (0), LOADING (1), LOADED (2). */
  datatype Status = Wait | Loading | Loaded

  /** A registry entry. `handle` is the user's preprocessor, absent when none was given. */
  datatype Entry = Entry(status: Status, content: string, arr: seq<string>, handle: Option<string -> string>)

  /** The entry `getScript` and `load` create for a URL not downloaded yet. */
  function Fresh(pre: Option<string -> string>): Entry
  {
    Entry(Wait, "", [], pre)
  }

  /** `getScript` sends a request for `url` exactly when the key is new or its entry still waits. */
  predicate WillRequest(reg: map<string, Entry>, url: string)
  {
    url !in reg || reg[url].status == Wait
  }

  /** The registry after `getScript(url, callback, pre)`: a new key gets a fresh entry, and an entry
      that waits is moved to LOADING (its request being sent). */
  function Get(reg: map<string, Entry>, url: string, pre: Option<string -> string>): (r: map<string, Entry>)
    ensures r.Keys == reg.Keys + {url}
    ensures r[url].status == if WillRequest(reg, url) then Loading else reg[url].status
    ensures url in reg ==> r[url] == reg[url].(status := r[url].status)
    ensures url !in reg ==> r[url] == Entry(Loading, "", [], pre)
    ensures forall k :: k in reg && k != url ==> r[k] == reg[k]
  {
    var e := if url in reg then reg[url] else Fresh(pre);
    if e.status == Wait then reg[url := e.(status := Loading)] else reg[url := e]
  }

  /** The registry after `getScript` for each of `urls` in turn (no preprocessor is passed on this
      path, importJS.js line 209). */
  function GetAll(reg: map<string, Entry>, urls: seq<string>): map<string, Entry>
  {
    if |urls| == 0 then reg
    else Get(GetAll(reg, urls[..|urls| - 1]), urls[|urls| - 1], None)
  }

  /** The requests those calls send, in order. */
  function Requested(reg: map<string, Entry>, urls: seq<string>): seq<string>
  {
    if |urls| == 0 then []
    else
      var before := GetAll(reg, urls[..|urls| - 1]);
      Requested(reg, urls[..|urls| - 1]) + (if WillRequest(before, urls[|urls| - 1]) then [urls[|urls| - 1]] else [])
  }

  lemma GetAllSnoc(reg: map<string, Entry>, urls: seq<string>, i: nat)
    requires i < |urls|
    ensures GetAll(reg, urls[..i + 1]) == Get(GetAll(reg, urls[..i]), urls[i], None)
    ensures Requested(reg, urls[..i + 1]) ==
            Requested(reg, urls[..i]) + (if WillRequest(GetAll(reg, urls[..i]), urls[i]) then [urls[i]] else [])
  {
    assert urls[..i + 1][..i] == urls[..i];
  }

  /** After the calls, every URL of `urls` is a key no longer waiting, no key is lost, and an entry
      for another key is untouched. */
  lemma {:induction false} GetAllSettles(reg: map<string, Entry>, urls: seq<string>)
    ensures forall k :: k in GetAll(reg, urls) <==> k in reg || k in urls
    ensures forall u :: u in urls ==> GetAll(reg, urls)[u].status != Wait
    ensures forall k :: k in reg && k !in urls ==> GetAll(reg, urls)[k] == reg[k]
  {
    if |urls| > 0 {
      var init := urls[..|urls| - 1];
      GetAllSettles(reg, init);
      assert urls == init + [urls[|urls| - 1]];
      var before := GetAll(reg, init);
      forall u | u in urls ensures GetAll(reg, urls)[u].status != Wait {
        if u != urls[|urls| - 1] {
          assert u in init;
          assert GetAll(reg, urls)[u] == before[u];
        }
      }
    }
  }

  /** The calls never request a URL twice, and request only URLs of `urls` that were new or waiting
      in the registry they started from. */
  lemma {:induction false} RequestedOnce(reg: map<string, Entry>, urls: seq<string>)
    ensures forall i, j :: 0 <= i < j < |Requested(reg, urls)| ==> Requested(reg, urls)[i] != Requested(reg, urls)[j]
    ensures forall i :: 0 <= i < |Requested(reg, urls)| ==>
              Requested(reg, urls)[i] in urls && WillRequest(reg, Requested(reg, urls)[i])
  {
    if |urls| > 0 {
      var init := urls[..|urls| - 1];
      var last := urls[|urls| - 1];
      var before := GetAll(reg, init);
      RequestedOnce(reg, init);
      GetAllSettles(reg, init);
      var r0 := Requested(reg, init);
      if WillRequest(before, last) {
        forall i | 0 <= i < |r0| ensures r0[i] != last {
          assert r0[i] in init;
        }
        if last in reg && last !in init {
          assert before[last] == reg[last];
        }
      }
      forall u | u in init ensures u in urls {
        assert u == urls[..|urls| - 1][IndexIn(init, u)];
      }
    }
  }

  /** An entry that is LOADING or LOADED is left exactly as it is: no new request, no field changed. */
  lemma {:induction false} GetAllKeepsSettled(reg: map<string, Entry>, urls: seq<string>, u: string)
    requires u in reg && reg[u].status != Wait
    ensures u in GetAll(reg, urls) && GetAll(reg, urls)[u] == reg[u]
  {
    if |urls| > 0 {
      GetAllKeepsSettled(reg, urls[..|urls| - 1], u);
    }
  }

  /** A position of `u` in `s`. */
  function IndexIn(s: seq<string>, u: string): (k: nat)
    requires u in s
    ensures k < |s| && s[k] == u
  {
    if s[0] == u then 0 else 1 + IndexIn(s[1..], u)
  }

  /** The keys whose files are downloaded and handled. */
  function LoadedKeys(reg: map<string, Entry>): set<string>
  {
    set u | u in reg && reg[u].status == Loaded
  }
}
