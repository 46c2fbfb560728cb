/** The key-value store behind a datagram socket: a datagram holding `=` is an
    insert, split at its first `=`; any other datagram is a retrieve of the key
    it holds and is answered with `key=value`. The key `version` is reserved:
    it cannot be written and always reads as `version=1.0.0`. */
module UnusualDb {
  import opened Text
  import opened Wrappers

  const VersionKey: string := "version"
  const VersionReply: string := "version=1.0.0"

  /** A datagram, as `do_it` reads it. */
  datatype Request = Insert(key: string, value: string) | Retrieve(key: string)

  /** An insert is split at the first `=`: the key is everything before it
      and the value everything after it, later `=` included. */
  function Parse(buffer: string): (r: Request)
    ensures r.Insert? <==> '=' in buffer
    ensures r.Insert? ==> buffer == r.key + "=" + r.value && '=' !in r.key
    ensures r.Retrieve? ==> r.key == buffer
  {
    if '=' in buffer then
      var i := IndexOf(buffer, '=');
      assert buffer == buffer[..i] + "=" + buffer[i + 1..];
      Insert(buffer[..i], buffer[i + 1..])
    else Retrieve(buffer)
  }

  /** The datagram a client sends for a request. */
  function Format(r: Request): string
  {
    match r
    case Insert(key, value) => key + "=" + value
    case Retrieve(key) => key
  }

  /** A request whose key holds no `=` is read back as itself. */
  lemma ParseFormat(r: Request)
    requires '=' !in r.key
    ensures Parse(Format(r)) == r
  {
    match r
    case Insert(key, value) =>
      var buffer := key + "=" + value;
      assert buffer[..|key|] == key;
      IndexOfFirst(buffer, '=', |key|);
      assert buffer[|key| + 1..] == value;
    case Retrieve(key) =>
  }

  /** Every datagram is the format of what it is read as. */
  lemma FormatParse(buffer: string)
    ensures Format(Parse(buffer)) == buffer
  {
  }

  /** The store after a datagram, and the reply sent back, if any. */
  datatype Outcome = Outcome(db: map<string, string>, reply: Option<string>)

  /** What one datagram does to the store and what it is answered with. */
  function Execute(db: map<string, string>, buffer: string): (r: Outcome)
    ensures r.reply.None? <==> '=' in buffer
    ensures '=' !in buffer ==> r.db == db
    ensures VersionKey in r.db <==> VersionKey in db
  {
    match Parse(buffer)
    case Insert(key, value) =>
      if key == VersionKey then Outcome(db, None)
      else Outcome(db[key := value], None)
    case Retrieve(key) =>
      if key == VersionKey then Outcome(db, Some(VersionReply))
      else Outcome(db, Some(key + "=" + (if key in db then db[key] else "")))
  }

  /** A datagram changes nothing in the store under any key but its own. */
  lemma OnlyOwnKeyChanges(db: map<string, string>, buffer: string, other: string)
    requires other != Parse(buffer).key
    ensures var after := Execute(db, buffer).db;
            && (other in after <==> other in db)
            && (other in db ==> after[other] == db[other])
  {
  }

  /** An insert under any key but `version` stores the value under the key. */
  lemma InsertStores(db: map<string, string>, buffer: string)
    requires '=' in buffer && Parse(buffer).key != VersionKey
    ensures var req := Parse(buffer);
            Execute(db, buffer).db == db[req.key := req.value]
  {
  }

  /** An insert spelled out as key, `=` and value, under a key without `=`
      other than `version`, stores exactly that value under that key. */
  lemma InsertKey(db: map<string, string>, key: string, value: string)
    requires '=' !in key && key != VersionKey
    ensures Execute(db, key + "=" + value) == Outcome(db[key := value], None)
  {
    ParseFormat(Insert(key, value));
  }

  /** A second insert under the same key replaces the first one's value. */
  lemma InsertOverwrites(db: map<string, string>, key: string, first: string, second: string)
    requires '=' !in key && key != VersionKey
    ensures Execute(Execute(db, key + "=" + first).db, key + "=" + second).db == db[key := second]
  {
    assert db[key := first][key := second] == db[key := second];
    InsertKey(db, key, first);
    InsertKey(db[key := first], key, second);
  }

  /** An insert under `version` changes nothing. */
  lemma VersionIsReadOnly(db: map<string, string>, value: string)
    ensures Execute(db, VersionKey + "=" + value) == Outcome(db, None)
  {
    ParseFormat(Insert(VersionKey, value));
  }

  /** A retrieve of `version` is answered with the version whatever is stored. */
  lemma VersionReplyAlways(db: map<string, string>)
    ensures Execute(db, VersionKey).reply == Some(VersionReply)
  {
    assert '=' !in VersionKey;
  }

  /** A retrieve of any other key is answered with the key, `=`, and the
      stored value, or nothing after the `=` when the key is absent. */
  lemma RetrieveReply(db: map<string, string>, key: string)
    requires '=' !in key && key != VersionKey
    ensures key in db ==> Execute(db, key).reply == Some(key + "=" + db[key])
    ensures key !in db ==> Execute(db, key).reply == Some(key + "=")
  {
    assert key + "=" + "" == key + "=";
  }

  /** What is inserted is what a later retrieve reads, whatever was stored
      before. */
  lemma InsertThenRetrieve(db: map<string, string>, key: string, value: string)
    requires '=' !in key && key != VersionKey
    ensures var after := Execute(db, key + "=" + value).db;
            Execute(after, key).reply == Some(key + "=" + value)
  {
    ParseFormat(Insert(key, value));
  }

  /** The store behind the socket, updated in place by every datagram. */
  class Store {
    var entries: map<string, string>

    constructor ()
      ensures entries == map[]
    {
      entries := map[];
    }

    /** `do_it`: answers a datagram and updates the store. It never fails. */
    method DoIt(buffer: string) returns (result: Result<Option<string>, string>)
      modifies this
      ensures result.Ok?
      ensures Outcome(entries, result.value) == Execute(old(entries), buffer)
    {
      var ret: Option<string>;
      if '=' in buffer {
        var position := IndexOf(buffer, '=');
        var key, value := buffer[..position], buffer[position..];
        if key == VersionKey {
          ret := None;
        } else {
          entries := entries[key := value[1..]];
          ret := None;
        }
      } else {
        var key := buffer;
        var v: string;
        if key == VersionKey {
          v := VersionReply;
        } else {
          var value := if key in entries then entries[key] else "";
          var reply := key;
          reply := reply + "=";
          reply := reply + value;
          v := reply;
        }
        ret := Some(v);
      }
      result := Ok(ret);
    }
  }

  /** The datagrams of the tests, spelled out as key, `=` and value. */
  lemma Spellings()
    ensures "foo=bar" == "foo" + "=" + "bar"
    ensures "foo=bar2" == "foo" + "=" + "bar2"
    ensures "foo=bar=f" == "foo" + "=" + "bar=f"
    ensures "foo===" == "foo" + "=" + "=="
    ensures "foo=" == "foo" + "=" + ""
    ensures "=bar" == "" + "=" + "bar"
    ensures "version=111" == VersionKey + "=" + "111"
    ensures "aaa=" == "aaa" + "="
  {
  }

  /** The insert test: a plain key and value. */
  lemma InsertExample()
    ensures Execute(map[], "foo=bar").db == map["foo" := "bar"]
  {
    Spellings();
    InsertKey(map[], "foo", "bar");
  }

  /** The insert test: the value is everything after the first `=`. */
  lemma InsertSplitsAtFirst()
    ensures Execute(map[], "foo=bar=f").db == map["foo" := "bar=f"]
  {
    Spellings();
    InsertKey(map[], "foo", "bar=f");
  }

  /** The insert tests: trailing `=` characters are part of the value, and
      the value may be empty. */
  lemma InsertEqualsExamples()
    ensures Execute(map[], "foo===").db == map["foo" := "=="]
    ensures Execute(map[], "foo=").db == map["foo" := ""]
  {
    Spellings();
    InsertKey(map[], "foo", "==");
    InsertKey(map[], "foo", "");
  }

  /** The insert tests: the empty key is a key, and `version` is never
      stored. */
  lemma InsertKeyExamples()
    ensures Execute(map[], "=bar").db == map["" := "bar"]
    ensures Execute(map[], "version=111").db == map[]
  {
    Spellings();
    InsertKey(map[], "", "bar");
    VersionIsReadOnly(map[], "111");
  }

  /** The retrieve test: a stored key is answered with its value. */
  lemma RetrieveStoredExample()
    ensures Execute(map["foo" := "bar"], "foo").reply == Some("foo=bar")
  {
    Spellings();
    RetrieveReply(map["foo" := "bar"], "foo");
  }

  /** The retrieve test: `version` is answered with the version. */
  lemma RetrieveVersionExample()
    ensures Execute(map["foo" := "bar"], "version").reply == Some("version=1.0.0")
  {
    VersionReplyAlways(map["foo" := "bar"]);
  }

  /** The retrieve test: an absent key is answered with nothing after the
      `=`. */
  lemma RetrieveAbsentExample()
    ensures Execute(map[], "aaa").reply == Some("aaa=")
  {
    Spellings();
    RetrieveReply(map[], "aaa");
  }

  /** The update test: a second insert under the same key replaces the value. */
  lemma UpdateExample()
    ensures Execute(Execute(map[], "foo=bar").db, "foo=bar2").db == map["foo" := "bar2"]
  {
    Spellings();
    InsertOverwrites(map[], "foo", "bar", "bar2");
  }
}
