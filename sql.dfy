/** The `DataBase` wrapper's own rules: the table-name whitelist, the guards
    and `TABLE` substitution at the start of QueryPrepare, the take-and-clear
    error accessor and the client-IP lookup. The mysqli driver calls around
    them are not modelled. */
module Sql {
  import opened Php

  /** A mysqli connection handle. */
  datatype Connection = Connection(handle: nat)

  /** A mysqli_stmt handle. */
  datatype Statement = Statement(handle: nat)

  /** The exceptions QueryPrepare throws before it touches the driver. */
  datatype QueryError = ConnectionNotOpened | InvalidTableName | InvalidVariablesType
  {
    /** The text each exception carries; the three texts are distinct. */
    function Message(): (msg: string)
      ensures msg == "Connection not opened" <==> this == ConnectionNotOpened
      ensures msg == "Invalid table name" <==> this == InvalidTableName
      ensures msg == "Invalid variables type (must be an array)" <==> this == InvalidVariablesType
    {
      match this
      case ConnectionNotOpened => "Connection not opened"
      case InvalidTableName => "Invalid table name"
      case InvalidVariablesType => "Invalid variables type (must be an array)"
    }
  }

  /** The placeholder QueryPrepare replaces with the quoted table name. */
  const TablePlaceholder := "TABLE"

  /** The $_SERVER keys GetClientIP tries, in order. */
  const ClientIPKeys: seq<string> := [
    "REMOTE_ADDR",
    "HTTP_FORWARDED",
    "HTTP_CLIENT_IP",
    "HTTP_FORWARDED_FOR",
    "HTTP_X_FORWARDED_FOR",
    "HTTP_X_FORWARDED"
  ]

  /** The character class [a-zA-Z0-9_]. */
  predicate IsWordChar(c: char)
  {
    ('a' <= c <= 'z') || ('A' <= c <= 'Z') || ('0' <= c <= '9') || c == '_'
  }

  /** Where preg_match('/[^a-zA-Z0-9_]/', s) finds its match: the first
      character outside the class, or None when it finds none. */
  function FirstNonWordChar(s: string): (r: Option<nat>)
    ensures r.Some? ==> r.value < |s| && !IsWordChar(s[r.value])
    ensures r.Some? ==> forall j :: 0 <= j < r.value ==> IsWordChar(s[j])
    ensures r.None? ==> forall j :: 0 <= j < |s| ==> IsWordChar(s[j])
  {
    if s == [] then None
    else if !IsWordChar(s[0]) then Some(0)
    else match FirstNonWordChar(s[1..])
      case None => None
      case Some(i) => Some(i + 1)
  }

  /** DataBase::IsSafe: the negated class has no match. */
  function IsSafe(s: string): (safe: bool)
    ensures safe <==> forall i :: 0 <= i < |s| ==> IsWordChar(s[i])
  {
    FirstNonWordChar(s).None?
  }

  /** The table name between backticks, as interpolated in "`$table`". */
  function QuoteIdentifier(table: string): (quoted: string)
    ensures |quoted| == |table| + 2
    ensures quoted[0] == '`' && quoted[|quoted| - 1] == '`'
    ensures quoted[1..|quoted| - 1] == table
  {
    "`" + table + "`"
  }

  /** A safe table name quotes into an identifier whose only backticks are
      its two delimiters, so it cannot close the quoting early. */
  lemma QuotedSafeIdentifier(table: string)
    requires IsSafe(table)
    ensures var q := QuoteIdentifier(table);
            && |q| == |table| + 2
            && forall i :: 0 <= i < |q| ==> (q[i] == '`' <==> i == 0 || i == |q| - 1)
  {
    var q := QuoteIdentifier(table);
    forall i | 0 < i < |q| - 1 ensures q[i] != '`' {
      assert q[i] == table[i - 1];
      assert IsWordChar(table[i - 1]);
    }
  }

  /** The substitution is single-pass: the quoted name `MYTABLE` contains
      the placeholder again, yet it is inserted once and not replaced again. */
  lemma MyTableIsNotRescanned()
    ensures OccursAt(QuoteIdentifier("MYTABLE"), TablePlaceholder, 3)
    ensures StrReplace(TablePlaceholder, QuoteIdentifier("MYTABLE"), TablePlaceholder) == QuoteIdentifier("MYTABLE")
  {
    var quoted := QuoteIdentifier("MYTABLE");
    assert quoted[3..8] == TablePlaceholder;
    StrReplaceIsSinglePass(TablePlaceholder, quoted, []);
    assert TablePlaceholder + [] == TablePlaceholder;
  }

  /** A DataBase object: its connection and the statement whose execution
      last failed. The connection settings read from settings.json are not
      modelled. */
  class DataBase {
    /** $conn: null until a connection is opened. */
    var conn: Option<Connection>
    /** $error_query: the statement whose execution last threw, or null. */
    var errorQuery: Option<Statement>

    /** The state the constructor leaves: the connection it opened (None when
        $openConnection was false) and no stored error. */
    constructor (conn: Option<Connection>)
      ensures this.conn == conn && errorQuery == None
    {
      this.conn := conn;
      errorQuery := None;
    }

    /** DataBase::GetError: null without a connection or a stored error;
        otherwise the stored statement, which is cleared. */
    method GetError() returns (error: Option<Statement>)
      modifies this`errorQuery
      ensures conn.None? || old(errorQuery).None? ==> error == None && errorQuery == old(errorQuery)
      ensures conn.Some? && old(errorQuery).Some? ==> error == old(errorQuery) && errorQuery == None
    {
      if conn.None? || errorQuery.None? {
        return None;
      }
      error := errorQuery;
      errorQuery := None;
    }

    /** A second GetError right after the first always returns null. */
    method GetErrorTwice() returns (first: Option<Statement>, second: Option<Statement>)
      modifies this`errorQuery
      ensures first == (if conn.Some? then old(errorQuery) else None)
      ensures second == None
      ensures errorQuery == (if conn.Some? then None else old(errorQuery))
    {
      first := GetError();
      second := GetError();
    }

    /** What QueryPrepare does when execute() throws: it stores the statement
        for GetError. */
    method RecordFailedExecution(query: Statement)
      modifies this`errorQuery
      ensures errorQuery == Some(query)
    {
      errorQuery := Some(query);
    }

    /** DataBase::QueryPrepare up to the prepare call: the three guards in
        their order, then `TABLE` replaced by the quoted table name when a
        table is given. Success carries the command handed to prepare(). */
    method QueryPrepare(table: Option<string>, command: string, variables: Value)
      returns (r: Result<string, QueryError>)
      ensures conn.None? ==> r == Failure(ConnectionNotOpened)
      ensures conn.Some? && table.Some? && !IsSafe(table.value) ==> r == Failure(InvalidTableName)
      ensures conn.Some? && (table.None? || IsSafe(table.value)) && TypeName(variables) != "array" ==>
                r == Failure(InvalidVariablesType)
      ensures conn.Some? && table.None? && TypeName(variables) == "array" ==> r == Success(command)
      ensures conn.Some? && table.Some? && IsSafe(table.value) && TypeName(variables) == "array" ==>
                r == Success(StrReplace(TablePlaceholder, QuoteIdentifier(table.value), command))
    {
      if conn.None? {
        return Failure(ConnectionNotOpened);
      }
      if table.Some? && !IsSafe(table.value) {
        return Failure(InvalidTableName);
      }
      if TypeName(variables) != "array" {
        return Failure(InvalidVariablesType);
      }
      var prepared := command;
      if table.Some? {
        prepared := StrReplace(TablePlaceholder, QuoteIdentifier(table.value), command);
      }
      return Success(prepared);
    }

    /** DataBase::GetClientIP with $_SERVER passed in: the value under the
        first key, in the order of ClientIPKeys, whose entry is not empty();
        None (PHP's false) when every entry is empty. */
    method GetClientIP(server: map<string, string>) returns (ip: Option<string>)
      ensures ip.None? <==> forall j :: 0 <= j < |ClientIPKeys| ==> Empty(Lookup(server, ClientIPKeys[j]))
      ensures ip.Some? ==> exists i :: IsFirstNonEmpty(server, ClientIPKeys, i) && ip == Lookup(server, ClientIPKeys[i])
    {
      var keys := ClientIPKeys;
      for i := 0 to |keys|
        invariant forall j :: 0 <= j < i ==> Empty(Lookup(server, keys[j]))
      {
        var entry := Lookup(server, keys[i]);
        if !Empty(entry) {
          assert IsFirstNonEmpty(server, keys, i);
          return entry;
        }
      }
      return None;
    }
  }

  /** keys[i] is the first of `keys` whose entry in `server` is not empty(). */
  ghost predicate IsFirstNonEmpty(server: map<string, string>, keys: seq<string>, i: int)
  {
    && 0 <= i < |keys|
    && !Empty(Lookup(server, keys[i]))
    && forall j :: 0 <= j < i ==> Empty(Lookup(server, keys[j]))
  }
}
