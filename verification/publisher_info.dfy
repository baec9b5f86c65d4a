/** The `server_publisher_info` table of the ledger database: schema
    migration, the commands that replace the whole table, and the two-step
    read of one publisher's record. Every operation only appends commands
    to a transaction (or decodes a response); executing a transaction is
    outside this model, and so is the banner table, whose migrate, write
    and read steps appear here as single opaque commands or inputs. */
module ServerPublisherInfoDatabase {
  import opened Wrappers

  const TableName: string := "server_publisher_info"

  /** A publisher's banner. Its fields belong to the banner table; they are
      carried here as opaque name/value pairs. */
  datatype PublisherBanner = PublisherBanner(fields: map<string, string>)

  /** A freshly made banner with every field at its default. */
  const EmptyBanner: PublisherBanner := PublisherBanner(map[])

  /** One publisher's record. `status` is the publisher-status enumerator
      as the integer it is stored as. */
  datatype ServerPublisherInfo = ServerPublisherInfo(
    publisherKey: string,
    status: int,
    excluded: bool,
    address: string,
    banner: Option<PublisherBanner>)

  datatype CommandType = Execute | Run | Read

  /** A value bound to the `?` placeholder at `index`. */
  datatype Binding =
    | StringBinding(index: nat, text: string)
    | IntBinding(index: nat, number: int)
    | BoolBinding(index: nat, flag: bool)

  datatype RecordBindingType = IntType | BoolType | StringType

  /** A command appended to a transaction. `Statement` is one this component
      writes itself; the others are appended by helpers whose bodies are
      not part of this model. */
  datatype DBCommand =
    | Statement(kind: CommandType, query: string, bindings: seq<Binding>,
                recordBindings: seq<RecordBindingType>)
    | DropTable(table: string)
    | InsertIndex(table: string, column: string)
    | BannerMigrate(target: int)
    | BannerInsertOrUpdate(info: ServerPublisherInfo)

  type Transaction = seq<DBCommand>

  const CreateTableV7Query: string :=
    "CREATE TABLE " + TableName + " ("
    + "publisher_key LONGVARCHAR PRIMARY KEY NOT NULL UNIQUE,"
    + "status INTEGER DEFAULT 0 NOT NULL,"
    + "excluded INTEGER DEFAULT 0 NOT NULL,"
    + "address TEXT NOT NULL)"

  const UpsertQuery: string :=
    "INSERT OR REPLACE INTO " + TableName
    + " (publisher_key, status, excluded, address) VALUES (?, ?, ?, ?)"

  const DeleteAllQuery: string := "DELETE FROM " + TableName

  const SelectQuery: string :=
    "SELECT status, excluded, address FROM " + TableName + " WHERE publisher_key=?"

  const CreateTableV7Command: DBCommand := Statement(Execute, CreateTableV7Query, [], [])

  const DeleteAllCommand: DBCommand := Statement(Execute, DeleteAllQuery, [], [])

  /** Whether each helper outside this model reports success: dropping the
      table, creating the index, and migrating the banner table to a given
      version. A helper that fails appends nothing. */
  datatype HelperOutcomes = HelperOutcomes(
    dropTableSucceeds: bool,
    insertIndexSucceeds: bool,
    bannerMigrateSucceeds: int -> bool)

  /** The full version 7 migration, in the order its steps are attempted. */
  const V7Script: Transaction :=
    [DropTable(TableName), CreateTableV7Command, InsertIndex(TableName, "publisher_key"), BannerMigrate(7)]

  datatype Migration = Migration(ok: bool, transaction: Transaction)

  /** `MigrateToV7`: the steps run in script order and the first failing
      step ends the migration, so what is appended is always a prefix of
      the script, and all of it exactly when every step succeeds. Creating
      the table itself cannot fail. */
  function MigrateToV7(tx: Transaction, helpers: HelperOutcomes): (r: Migration)
    ensures r.ok <==> helpers.dropTableSucceeds && helpers.insertIndexSucceeds
                      && helpers.bannerMigrateSucceeds(7)
    ensures |tx| <= |r.transaction| <= |tx| + |V7Script|
    ensures r.transaction == tx + V7Script[..|r.transaction| - |tx|]
    ensures r.ok ==> r.transaction == tx + V7Script
    ensures !helpers.dropTableSucceeds ==> r.transaction == tx
    ensures helpers.dropTableSucceeds && !helpers.insertIndexSucceeds
            ==> r.transaction == tx + V7Script[..2]
    ensures helpers.dropTableSucceeds && helpers.insertIndexSucceeds
            && !helpers.bannerMigrateSucceeds(7)
            ==> r.transaction == tx + V7Script[..3]
  {
    if !helpers.dropTableSucceeds then Migration(false, tx)
    else
      var created := tx + [DropTable(TableName), CreateTableV7Command];
      if !helpers.insertIndexSucceeds then Migration(false, created)
      else
        var indexed := created + [InsertIndex(TableName, "publisher_key")];
        if !helpers.bannerMigrateSucceeds(7) then Migration(false, indexed)
        else Migration(true, indexed + [BannerMigrate(7)])
  }

  /** `MigrateToV15`: only the banner table changes at version 15. */
  function MigrateToV15(tx: Transaction, helpers: HelperOutcomes): (r: Migration)
    ensures r.ok == helpers.bannerMigrateSucceeds(15)
    ensures r.ok ==> r.transaction == tx + [BannerMigrate(15)]
    ensures !r.ok ==> r.transaction == tx
  {
    if helpers.bannerMigrateSucceeds(15) then Migration(true, tx + [BannerMigrate(15)])
    else Migration(false, tx)
  }

  datatype MigrationResult = MigrationResult(ok: bool, transaction: Option<Transaction>)

  /** `Migrate`: a missing transaction fails; versions 7 and 15 have a
      migration; every other version is a successful no-op. A migration to
      version `target` only ever asks the banner table to migrate to
      `target`, and never removes a command already in the transaction. */
  function Migrate(tx: Option<Transaction>, target: int, helpers: HelperOutcomes): (r: MigrationResult)
    ensures tx.None? ==> !r.ok && r.transaction == None
    ensures tx.Some? ==> r.transaction.Some? && tx.value <= r.transaction.value
    ensures tx.Some? && target != 7 && target != 15 ==> r.ok && r.transaction == tx
    ensures tx.Some? && target == 7 ==>
              (r.ok <==> helpers.dropTableSucceeds && helpers.insertIndexSucceeds
                         && helpers.bannerMigrateSucceeds(7))
              && (r.ok ==> r.transaction.value == tx.value + V7Script)
              && |r.transaction.value| <= |tx.value| + |V7Script|
              && r.transaction.value == tx.value + V7Script[..|r.transaction.value| - |tx.value|]
              && (!helpers.dropTableSucceeds ==> r.transaction.value == tx.value)
              && (helpers.dropTableSucceeds && !helpers.insertIndexSucceeds
                  ==> r.transaction.value == tx.value + V7Script[..2])
              && (helpers.dropTableSucceeds && helpers.insertIndexSucceeds
                  && !helpers.bannerMigrateSucceeds(7)
                  ==> r.transaction.value == tx.value + V7Script[..3])
    ensures tx.Some? && target == 15 ==>
              r.ok == helpers.bannerMigrateSucceeds(15)
              && r.transaction.value == tx.value + (if r.ok then [BannerMigrate(15)] else [])
    ensures tx.Some? ==>
              forall i | |tx.value| <= i < |r.transaction.value| ::
                r.transaction.value[i].BannerMigrate? ==> r.transaction.value[i].target == target
  {
    match tx
    case None => MigrationResult(false, None)
    case Some(commands) =>
      if target == 7 then
        var m := MigrateToV7(commands, helpers);
        MigrationResult(m.ok, Some(m.transaction))
      else if target == 15 then
        var m := MigrateToV15(commands, helpers);
        MigrationResult(m.ok, Some(m.transaction))
      else
        MigrationResult(true, tx)
  }

  /** The upsert of one record, its four columns bound in column order. */
  function UpsertCommand(info: ServerPublisherInfo): DBCommand {
    Statement(Run, UpsertQuery,
              [StringBinding(0, info.publisherKey), IntBinding(1, info.status),
               BoolBinding(2, info.excluded), StringBinding(3, info.address)],
              [])
  }

  /** `InsertOrUpdate`: nothing for a missing record, otherwise exactly one
      RUN of the upsert binding key, status, excluded and address to the
      placeholders 0 to 3. */
  function InsertOrUpdate(tx: Transaction, info: Option<ServerPublisherInfo>): (r: Transaction)
    ensures info.None? ==> r == tx
    ensures info.Some? ==> |r| == |tx| + 1 && r[..|tx|] == tx
    ensures info.Some? ==>
              && r[|tx|].Statement?
              && r[|tx|].kind == Run
              && r[|tx|].query == UpsertQuery
              && r[|tx|].bindings == [StringBinding(0, info.value.publisherKey),
                                      IntBinding(1, info.value.status),
                                      BoolBinding(2, info.value.excluded),
                                      StringBinding(3, info.value.address)]
  {
    match info
    case None => tx
    case Some(i) => tx + [UpsertCommand(i)]
  }

  /** The commands one list entry contributes: nothing for a null entry,
      else its upsert, followed by its banner's upsert when it has one. */
  function EntryCommands(entry: Option<ServerPublisherInfo>): Transaction {
    match entry
    case None => []
    case Some(info) =>
      InsertOrUpdate([], entry) + (if info.banner.Some? then [BannerInsertOrUpdate(info)] else [])
  }

  function CountPresent(list: seq<Option<ServerPublisherInfo>>): nat {
    if |list| == 0 then 0
    else CountPresent(list[..|list| - 1]) + (if list[|list| - 1].Some? then 1 else 0)
  }

  function CountWithBanner(list: seq<Option<ServerPublisherInfo>>): nat {
    if |list| == 0 then 0
    else
      var e := list[|list| - 1];
      CountWithBanner(list[..|list| - 1]) + (if e.Some? && e.value.banner.Some? then 1 else 0)
  }

  /** The commands the entries of `list` contribute, entry by entry in list
      order: one per non-null entry plus one per entry with a banner. */
  function ListCommands(list: seq<Option<ServerPublisherInfo>>): (r: Transaction)
    ensures |r| == CountPresent(list) + CountWithBanner(list)
  {
    if |list| == 0 then []
    else ListCommands(list[..|list| - 1]) + EntryCommands(list[|list| - 1])
  }

  /** `ClearAndInsertList`: the transaction that replaces the table's
      contents. It starts with the DELETE of every row, which is all it
      holds for an empty list; the entries' commands follow in list order. */
  method ClearAndInsertList(list: seq<Option<ServerPublisherInfo>>) returns (tx: Transaction)
    ensures |tx| > 0 && tx[0] == DeleteAllCommand
    ensures tx[1..] == ListCommands(list)
  {
    tx := [DeleteAllCommand];
    if |list| == 0 {
      return;
    }
    var i := 0;
    while i < |list|
      invariant 0 <= i <= |list|
      invariant tx == [DeleteAllCommand] + ListCommands(list[..i])
    {
      tx := AppendEntry(tx, list[i]);
      ListCommandsStep(list, i);
      i := i + 1;
    }
    assert list[..i] == list;
  }

  /** One iteration of the loop in `ClearAndInsertList`: a null entry is
      skipped; otherwise the record's upsert is appended, and then its
      banner's upsert when it has a banner. */
  method AppendEntry(tx: Transaction, entry: Option<ServerPublisherInfo>) returns (r: Transaction)
    ensures r == tx + EntryCommands(entry)
  {
    r := tx;
    if entry.None? {
      return;
    }
    r := InsertOrUpdate(r, entry);
    assert r == tx + InsertOrUpdate([], entry);
    if entry.value.banner.Some? {
      r := r + [BannerInsertOrUpdate(entry.value)];
    }
  }

  lemma ListCommandsStep(list: seq<Option<ServerPublisherInfo>>, i: nat)
    requires i < |list|
    ensures ListCommands(list[..i + 1]) == ListCommands(list[..i]) + EntryCommands(list[i])
  {
    assert list[..i + 1][..i] == list[..i];
  }

  // ---------------------------------------------------------------------
  // Ordering of the replacement's commands.

  /** Keys of the record upserts among `cmds`, in command order. */
  function UpsertKeys(cmds: Transaction): seq<string> {
    if |cmds| == 0 then []
    else
      var c := cmds[|cmds| - 1];
      UpsertKeys(cmds[..|cmds| - 1])
      + (if c.Statement? && c.query == UpsertQuery && |c.bindings| == 4 && c.bindings[0].StringBinding?
         then [c.bindings[0].text] else [])
  }

  /** Keys of the non-null entries, in list order. */
  function PresentKeys(list: seq<Option<ServerPublisherInfo>>): seq<string> {
    if |list| == 0 then []
    else
      var e := list[|list| - 1];
      PresentKeys(list[..|list| - 1]) + (if e.Some? then [e.value.publisherKey] else [])
  }

  lemma {:induction false} UpsertKeysConcat(a: Transaction, b: Transaction)
    ensures UpsertKeys(a + b) == UpsertKeys(a) + UpsertKeys(b)
    decreases |b|
  {
    if |b| > 0 {
      assert (a + b)[..|a + b| - 1] == a + b[..|b| - 1];
      UpsertKeysConcat(a, b[..|b| - 1]);
    } else {
      assert a + b == a;
    }
  }

  lemma EntryUpsertKeys(entry: Option<ServerPublisherInfo>)
    ensures UpsertKeys(EntryCommands(entry)) == (if entry.Some? then [entry.value.publisherKey] else [])
  {
    if entry.Some? {
      var u := UpsertCommand(entry.value);
      assert UpsertKeys([u]) == [entry.value.publisherKey] by {
        assert [u][..0] == [];
      }
      if entry.value.banner.Some? {
        UpsertKeysConcat([u], [BannerInsertOrUpdate(entry.value)]);
        assert UpsertKeys([BannerInsertOrUpdate(entry.value)]) == [] by {
          assert [BannerInsertOrUpdate(entry.value)][..0] == [];
        }
      }
    }
  }

  /** The record upserts of a replacement follow the non-null entries one
      for one and in list order; null entries leave no trace. */
  lemma {:induction false} UpsertsFollowListOrder(list: seq<Option<ServerPublisherInfo>>)
    ensures UpsertKeys(ListCommands(list)) == PresentKeys(list)
  {
    if |list| > 0 {
      var init := list[..|list| - 1];
      UpsertsFollowListOrder(init);
      UpsertKeysConcat(ListCommands(init), EntryCommands(list[|list| - 1]));
      EntryUpsertKeys(list[|list| - 1]);
    }
  }

  /** Every banner upsert comes immediately after the upsert of the record
      that owns the banner. */
  predicate BannersFollowRecords(cmds: Transaction) {
    forall j | 0 <= j < |cmds| && cmds[j].BannerInsertOrUpdate? ::
      j > 0 && cmds[j - 1] == UpsertCommand(cmds[j].info) && cmds[j].info.banner.Some?
  }

  /** In a replacement, each banner upsert comes right after the upsert of
      the record that owns it. */
  lemma {:induction false} BannerFollowsItsRecord(list: seq<Option<ServerPublisherInfo>>)
    ensures BannersFollowRecords(ListCommands(list))
  {
    if |list| > 0 {
      var init := list[..|list| - 1];
      var e := list[|list| - 1];
      BannerFollowsItsRecord(init);
      var a, b := ListCommands(init), EntryCommands(e);
      var cmds: Transaction := a + b;
      assert ListCommands(list) == cmds;
      forall j | 0 <= j < |cmds| && cmds[j].BannerInsertOrUpdate?
        ensures j > 0 && cmds[j - 1] == UpsertCommand(cmds[j].info) && cmds[j].info.banner.Some?
      {
        if j < |a| {
          assert cmds[j] == a[j];
          assert j > 0 && a[j - 1] == UpsertCommand(a[j].info) && a[j].info.banner.Some?;
          assert cmds[j - 1] == a[j - 1];
        } else {
          assert b[j - |a|] == cmds[j];
          var info := e.value;
          assert info.banner.Some?;
          assert b == [UpsertCommand(info), BannerInsertOrUpdate(info)];
          assert j == |a| + 1;
          assert cmds[j - 1] == b[0];
        }
      }
    }
  }

  /** The records whose banners are upserted among `cmds`, in command order. */
  function BannerInfos(cmds: Transaction): seq<ServerPublisherInfo> {
    if |cmds| == 0 then []
    else
      var c := cmds[|cmds| - 1];
      BannerInfos(cmds[..|cmds| - 1]) + (if c.BannerInsertOrUpdate? then [c.info] else [])
  }

  /** The non-null entries that carry a banner, in list order. */
  function EntriesWithBanner(list: seq<Option<ServerPublisherInfo>>): seq<ServerPublisherInfo> {
    if |list| == 0 then []
    else
      var e := list[|list| - 1];
      EntriesWithBanner(list[..|list| - 1])
      + (if e.Some? && e.value.banner.Some? then [e.value] else [])
  }

  lemma {:induction false} BannerInfosConcat(a: Transaction, b: Transaction)
    ensures BannerInfos(a + b) == BannerInfos(a) + BannerInfos(b)
    decreases |b|
  {
    if |b| > 0 {
      assert (a + b)[..|a + b| - 1] == a + b[..|b| - 1];
      BannerInfosConcat(a, b[..|b| - 1]);
    } else {
      assert a + b == a;
    }
  }

  lemma EntryBannerInfos(entry: Option<ServerPublisherInfo>)
    ensures BannerInfos(EntryCommands(entry))
         == (if entry.Some? && entry.value.banner.Some? then [entry.value] else [])
  {
    if entry.Some? {
      var u := UpsertCommand(entry.value);
      assert BannerInfos([u]) == [] by {
        assert [u][..0] == [];
      }
      if entry.value.banner.Some? {
        var b := BannerInsertOrUpdate(entry.value);
        BannerInfosConcat([u], [b]);
        assert BannerInfos([b]) == [entry.value] by {
          assert [b][..0] == [];
        }
      }
    }
  }

  /** In a replacement, the banner upserts are exactly one per non-null
      entry that has a banner, carrying that entry, in list order. */
  lemma {:induction false} EveryBannerUpserted(list: seq<Option<ServerPublisherInfo>>)
    ensures BannerInfos(ListCommands(list)) == EntriesWithBanner(list)
  {
    if |list| > 0 {
      var init := list[..|list| - 1];
      EveryBannerUpserted(init);
      BannerInfosConcat(ListCommands(init), EntryCommands(list[|list| - 1]));
      EntryBannerInfos(list[|list| - 1]);
    }
  }

  // ---------------------------------------------------------------------
  // What the statements do to the table's rows.

  /** The three stored columns of one row. */
  datatype Row = Row(status: int, excluded: bool, address: string)

  /** The table's rows, by publisher key (the primary key). */
  type Table = map<string, Row>

  function RowOf(info: ServerPublisherInfo): Row {
    Row(info.status, info.excluded, info.address)
  }

  predicate IsUpsertBindings(b: seq<Binding>) {
    && |b| == 4
    && b[0].StringBinding? && b[0].index == 0
    && b[1].IntBinding? && b[1].index == 1
    && b[2].BoolBinding? && b[2].index == 2
    && b[3].StringBinding? && b[3].index == 3
  }

  /** Effect of one command on the rows under SQL semantics: the DELETE and
      dropping the table remove every row, the upsert inserts or replaces
      the row of its key, and every other command leaves the rows alone. */
  function ApplyCommand(t: Table, c: DBCommand): Table {
    match c
    case Statement(kind, query, bindings, _) =>
      if kind == Execute && query == DeleteAllQuery then map[]
      else if kind == Run && query == UpsertQuery && IsUpsertBindings(bindings) then
        t[bindings[0].text := Row(bindings[1].number, bindings[2].flag, bindings[3].text)]
      else t
    case DropTable(table) => if table == TableName then map[] else t
    case _ => t
  }

  /** Effect of a committed transaction: its commands in order. */
  function Apply(t: Table, cmds: Transaction): Table
    decreases |cmds|
  {
    if |cmds| == 0 then t else Apply(ApplyCommand(t, cmds[0]), cmds[1..])
  }

  function Lookup(t: Table, key: string): Option<Row> {
    if key in t then Some(t[key]) else None
  }

  /** The row of the last non-null entry of `list` with this key. */
  function LastRowFor(list: seq<Option<ServerPublisherInfo>>, key: string): Option<Row> {
    if |list| == 0 then None
    else
      var e := list[|list| - 1];
      if e.Some? && e.value.publisherKey == key then Some(RowOf(e.value))
      else LastRowFor(list[..|list| - 1], key)
  }

  lemma {:induction false} ApplyConcat(t: Table, a: Transaction, b: Transaction)
    ensures Apply(t, a + b) == Apply(Apply(t, a), b)
    decreases |a|
  {
    if |a| > 0 {
      assert (a + b)[1..] == a[1..] + b;
      ApplyConcat(ApplyCommand(t, a[0]), a[1..], b);
    } else {
      assert a + b == b;
    }
  }

  lemma EntryEffect(t: Table, entry: Option<ServerPublisherInfo>)
    ensures entry.None? ==> Apply(t, EntryCommands(entry)) == t
    ensures entry.Some? ==>
              Apply(t, EntryCommands(entry)) == t[entry.value.publisherKey := RowOf(entry.value)]
  {
    if entry.Some? {
      var info := entry.value;
      var t1 := ApplyCommand(t, UpsertCommand(info));
      assert t1 == t[info.publisherKey := RowOf(info)];
      if info.banner.Some? {
        var b := BannerInsertOrUpdate(info);
        assert EntryCommands(entry) == [UpsertCommand(info), b];
        assert [UpsertCommand(info), b][1..] == [b];
        assert Apply(t1, [b]) == Apply(ApplyCommand(t1, b), []) == t1;
      } else {
        assert EntryCommands(entry) == [UpsertCommand(info)];
      }
    }
  }

  /** After the entries' commands, a key maps to the row of the last
      non-null entry with that key, or keeps its earlier row if no entry
      has it. */
  lemma {:induction false} ListCommandsEffect(t: Table, list: seq<Option<ServerPublisherInfo>>, key: string)
    ensures Lookup(Apply(t, ListCommands(list)), key)
         == (if LastRowFor(list, key).Some? then LastRowFor(list, key) else Lookup(t, key))
  {
    if |list| > 0 {
      var init := list[..|list| - 1];
      var e := list[|list| - 1];
      ApplyConcat(t, ListCommands(init), EntryCommands(e));
      ListCommandsEffect(t, init, key);
      EntryEffect(Apply(t, ListCommands(init)), e);
    }
  }

  /** Replacing the table leaves exactly one row per key of a non-null
      entry, holding the last such entry's columns, and no earlier row. */
  lemma ReplaceAllTable(t: Table, list: seq<Option<ServerPublisherInfo>>, key: string)
    ensures Lookup(Apply(t, [DeleteAllCommand] + ListCommands(list)), key) == LastRowFor(list, key)
  {
    assert ([DeleteAllCommand] + ListCommands(list))[1..] == ListCommands(list);
    ListCommandsEffect(map[], list, key);
  }

  // ---------------------------------------------------------------------
  // Reading one record.

  datatype ResponseStatus = ResponseOk | ResponseError

  /** A transaction's response; the READ's records come already decoded by
      its record bindings into rows. */
  datatype DBCommandResponse = DBCommandResponse(status: ResponseStatus, records: seq<Row>)

  const SelectRecordBindings: seq<RecordBindingType> := [IntType, BoolType, StringType]

  /** What `OnGetRecordBanner` submits and passes on: the READ of the key's
      row, and the banner to attach. */
  datatype RecordQuery = RecordQuery(transaction: Transaction, banner: PublisherBanner)

  /** `OnGetRecordBanner`: one READ of status, excluded and address bound
      to the key; the fetched banner, or an empty one when none was found. */
  function OnGetRecordBanner(banner: Option<PublisherBanner>, publisherKey: string): (r: RecordQuery)
    ensures |r.transaction| == 1
    ensures r.transaction[0]
         == Statement(Read, SelectQuery, [StringBinding(0, publisherKey)], SelectRecordBindings)
    ensures banner.Some? ==> r.banner == banner.value
    ensures banner.None? ==> r.banner == EmptyBanner
  {
    RecordQuery([Statement(Read, SelectQuery, [StringBinding(0, publisherKey)], SelectRecordBindings)],
                banner.GetOr(EmptyBanner))
  }

  /** `OnGetRecord`: absent unless the response exists, is OK and holds
      exactly one record; otherwise the record under the queried key with
      the record's columns and the given banner. */
  function OnGetRecord(response: Option<DBCommandResponse>, publisherKey: string,
                       banner: PublisherBanner): (r: Option<ServerPublisherInfo>)
    ensures r.None? <==> response.None? || response.value.status != ResponseOk
                         || |response.value.records| != 1
    ensures r.Some? ==> && r.value.publisherKey == publisherKey
                        && RowOf(r.value) == response.value.records[0]
                        && r.value.banner == Some(banner)
  {
    if response.None? || response.value.status != ResponseOk then None
    else if |response.value.records| != 1 then None
    else
      var row := response.value.records[0];
      Some(ServerPublisherInfo(publisherKey, row.status, row.excluded, row.address, Some(banner)))
  }

  /** `GetRecord` with both asynchronous steps folded in: the banner table's
      answer and the database's answer to the READ are inputs. */
  function GetRecord(publisherKey: string, fetchedBanner: Option<PublisherBanner>,
                     execute: Transaction -> Option<DBCommandResponse>): (r: Option<ServerPublisherInfo>)
    ensures var resp := execute([Statement(Read, SelectQuery, [StringBinding(0, publisherKey)],
                                           SelectRecordBindings)]);
            && (r.None? <==> resp.None? || resp.value.status != ResponseOk || |resp.value.records| != 1)
            && (r.Some? ==> RowOf(r.value) == resp.value.records[0])
    ensures r.Some? ==> r.value.publisherKey == publisherKey
    ensures r.Some? ==> r.value.banner == Some(fetchedBanner.GetOr(EmptyBanner))
  {
    var query := OnGetRecordBanner(fetchedBanner, publisherKey);
    OnGetRecord(execute(query.transaction), publisherKey, query.banner)
  }

  /** Executing a READ of one key against the rows: its row if present. */
  function ExecuteRead(t: Table, tx: Transaction): DBCommandResponse {
    if |tx| == 1 && tx[0].Statement? && tx[0].kind == Read && tx[0].query == SelectQuery
       && |tx[0].bindings| == 1 && tx[0].bindings[0].StringBinding?
    then
      var key := tx[0].bindings[0].text;
      DBCommandResponse(ResponseOk, if key in t then [t[key]] else [])
    else DBCommandResponse(ResponseError, [])
  }

  /** Reading a key after the table was replaced from `list` gives the last
      non-null entry with that key, with the fetched (or empty) banner, and
      nothing when no entry has the key. */
  lemma ReadAfterReplace(t: Table, list: seq<Option<ServerPublisherInfo>>, key: string,
                         fetchedBanner: Option<PublisherBanner>)
    ensures var stored := Apply(t, [DeleteAllCommand] + ListCommands(list));
            var r := GetRecord(key, fetchedBanner, tx => Some(ExecuteRead(stored, tx)));
            && (r.Some? <==> LastRowFor(list, key).Some?)
            && (r.Some? ==> RowOf(r.value) == LastRowFor(list, key).value
                            && r.value.banner == Some(fetchedBanner.GetOr(EmptyBanner)))
  {
    ReplaceAllTable(t, list, key);
  }
}
