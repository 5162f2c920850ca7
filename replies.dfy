/**
 * The part of CryptRedisDbPrivate::buildReply (db.cpp, and the same switch in
 * cryptredisdb.cpp) that copies a hiredis reply into a CryptRedisResult.
 */
module Replies {
  import opened CTypes
  import opened Hiredis
  import opened Result

  /** The result fields after a reply is stored over f. */
  function Filled(f: Fields, r: Reply): Fields {
    var stored :=
      if r.kind == REPLY_ERROR then f.(status := FAIL, text := CString(r.str))
      else if r.kind == REPLY_STATUS || r.kind == REPLY_STRING then f.(status := OK, text := CString(r.str))
      else if r.kind == REPLY_INTEGER then f.(integer := r.integer, status := OK)
      else f;
    stored.(size := Narrow32(r.len), kind := r.kind)
  }

  /**
   * The status mapping: an error reply fails with its message, a status or
   * string reply succeeds with its text, an integer reply succeeds with its
   * number, and any other reply (an array among them) leaves status, text and
   * number as they were.  Size and type are set whatever the reply.
   */
  lemma FilledMapping(f: Fields, r: Reply)
    ensures Filled(f, r).size == Narrow32(r.len) && Filled(f, r).kind == r.kind
    ensures r.kind == REPLY_ERROR ==>
      Filled(f, r).status == FAIL && Filled(f, r).text == CString(r.str) && Filled(f, r).integer == f.integer
    ensures r.kind == REPLY_STATUS || r.kind == REPLY_STRING ==>
      Filled(f, r).status == OK && Filled(f, r).text == CString(r.str) && Filled(f, r).integer == f.integer
    ensures r.kind == REPLY_INTEGER ==>
      Filled(f, r).status == OK && Filled(f, r).integer == r.integer && Filled(f, r).text == f.text
    ensures r.kind !in {REPLY_ERROR, REPLY_STATUS, REPLY_STRING, REPLY_INTEGER} ==>
      Filled(f, r).status == f.status && Filled(f, r).text == f.text && Filled(f, r).integer == f.integer
  {
  }

  /** A reply succeeds exactly when it is a status, string or integer reply, or an other reply over a result that already had Ok. */
  lemma FilledOk(f: Fields, r: Reply)
    ensures Filled(f, r).status == OK <==>
      r.kind in {REPLY_STATUS, REPLY_STRING, REPLY_INTEGER} ||
      (r.kind !in {REPLY_ERROR, REPLY_STATUS, REPLY_STRING, REPLY_INTEGER} && f.status == OK)
  {
  }

  /** The switch of buildReply, with the fall-through from the error case into the string case. */
  method Store(r: Reply, rpl: CryptRedisResult)
    modifies rpl
    ensures rpl.Snapshot() == Filled(old(rpl.Snapshot()), r)
  {
    if r.kind == REPLY_ERROR || r.kind == REPLY_STATUS || r.kind == REPLY_STRING {
      if r.kind == REPLY_ERROR {
        rpl.SetStatus(FAIL);
      }
      if r.kind != REPLY_ERROR {
        rpl.SetStatus(OK);
      }
      rpl.SetData(CString(r.str));
    } else if r.kind == REPLY_INTEGER {
      rpl.SetInteger(r.integer);
      rpl.SetStatus(OK);
    }
    rpl.SetSize(Narrow32(r.len));
    rpl.SetType(r.kind);
  }
}
