/**
 * CryptRedisResult (result.cpp, and its older copy cryptredisresult.cpp, which
 * has the same members with the same bodies): the record a command's reply is
 * stored in.  The C++ class keeps its fields behind a private pointer d; here
 * they are the class's own fields.
 */
module Result {
  import opened CTypes
  import Hiredis

  /** The status codes of the CryptRedisResult enum. */
  const OK: int32 := 0
  const FAIL: int32 := -1

  /** The field values of a result: data_s, data_i, type, size and status. */
  datatype Fields = Fields(text: string, integer: int64, kind: int32, size: int32, status: int32)

  /** What clear leaves: no size, integer -1, type Nil, no text, status Fail. */
  const CLEARED: Fields := Fields("", -1, Hiredis.REPLY_NIL, 0, FAIL)

  /** The statusString switch: the name of a status code. */
  function StatusName(s: int32): string {
    if s == OK then "CryptRedisResult::Ok"
    else if s == FAIL then "CryptRedisResult::Fail"
    else "No such status"
  }

  /** The three names are distinct, so the name identifies Ok and Fail exactly. */
  lemma StatusNames(s: int32)
    ensures StatusName(s) == "CryptRedisResult::Ok" <==> s == OK
    ensures StatusName(s) == "CryptRedisResult::Fail" <==> s == FAIL
    ensures StatusName(s) == "No such status" <==> s != OK && s != FAIL
  {
  }

  class CryptRedisResult {
    var text: string
    var integer: int64
    var kind: int32
    var size: int32
    var status: int32

    function Snapshot(): Fields
      reads this
    {
      Fields(text, integer, kind, size, status)
    }

    /** A new result is in the cleared state. */
    constructor ()
      ensures Snapshot() == CLEARED
    {
      new;
      Clear();
    }

    method Clear()
      modifies this
      ensures Snapshot() == CLEARED
    {
      size := 0;
      integer := -1;
      kind := Hiredis.REPLY_NIL;
      text := "";
      status := FAIL;
    }

    /** invalidate is clear under another name. */
    method Invalidate()
      modifies this
      ensures Snapshot() == CLEARED
    {
      Clear();
    }

    /** setData(const string &): only the text changes. */
    method SetData(data: string)
      modifies this
      ensures ToString() == data
      ensures Snapshot() == old(Snapshot()).(text := data)
    {
      text := data;
    }

    /** setData(long long): only the integer changes. */
    method SetInteger(data: int64)
      modifies this
      ensures integer == data
      ensures Snapshot() == old(Snapshot()).(integer := data)
    {
      integer := data;
    }

    method SetType(t: int32)
      modifies this
      ensures Type() == t
      ensures Snapshot() == old(Snapshot()).(kind := t)
    {
      kind := t;
    }

    method SetSize(s: int32)
      modifies this
      ensures Size() == s
      ensures Snapshot() == old(Snapshot()).(size := s)
    {
      size := s;
    }

    method SetStatus(s: int32)
      modifies this
      ensures Status() == s
      ensures Snapshot() == old(Snapshot()).(status := s)
    {
      status := s;
    }

    /** toString: the stored text, data_s. */
    function ToString(): (r: string)
      reads this
      ensures r == Snapshot().text
    {
      text
    }

    /** toInteger returns the long long through an int. */
    function ToInteger(): (r: int32)
      reads this
      ensures -0x8000_0000 <= integer as int < 0x8000_0000 ==> r as int == integer as int
      ensures (r as int - integer as int) % 0x1_0000_0000 == 0
    {
      Narrow32(integer as int)
    }

    /** type: the stored hiredis reply type. */
    function Type(): (r: int32)
      reads this
      ensures r == Snapshot().kind
    {
      kind
    }

    /** size: the stored size. */
    function Size(): (r: int32)
      reads this
      ensures r == Snapshot().size
    {
      size
    }

    /** status: the stored status code. */
    function Status(): (r: int32)
      reads this
      ensures r == Snapshot().status
    {
      status
    }

    /** errorString hands back the same text as toString. */
    function ErrorString(): (r: string)
      reads this
      ensures r == ToString()
    {
      text
    }

    /** statusString: names Ok and Fail, and every other code alike. */
    function StatusString(): (r: string)
      reads this
      ensures r == "CryptRedisResult::Ok" <==> status == OK
      ensures r == "CryptRedisResult::Fail" <==> status == FAIL
      ensures r == "No such status" <==> status != OK && status != FAIL
    {
      StatusName(status)
    }

    /** The static statusString(s): the name a fresh result gives after setStatus(s). */
    static method StatusStringOf(s: int32) returns (r: string)
      ensures r == StatusName(s)
    {
      var res := new CryptRedisResult();
      res.SetStatus(s);
      r := res.StatusString();
    }
  }
}
