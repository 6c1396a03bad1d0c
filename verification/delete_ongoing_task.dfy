/** The cluster command that deletes one ongoing task of a database: it edits the
    database record's list for the task's type and leaves the rest alone. */
module Commands {
  import opened Wrappers
  import Sequences
  import DecimalText

  newtype int64 = x: int | -0x8000_0000_0000_0000 <= x < 0x8000_0000_0000_0000

  /** The kinds of ongoing task; `OtherTaskType` stands for every member the
      command does not handle. */
  datatype OngoingTaskType = Replication | Backup | SqlEtl | RavenEtl | OtherTaskType(name: string)

  /** An ETL task definition (SQL or Raven), identified by its task id. */
  datatype EtlConfiguration = EtlConfiguration(TaskId: int64, Name: string)

  /** An external replication watcher. */
  datatype ExternalReplication = ExternalReplication(TaskId: int64, Database: string)

  datatype PeriodicBackupConfiguration = PeriodicBackupConfiguration(TaskId: int64)

  /** The parts of a database record the command can touch; a null list is `None`. */
  class DatabaseRecord {
    var SqlEtls: Option<seq<EtlConfiguration>>
    var RavenEtls: Option<seq<EtlConfiguration>>
    var ExternalReplications: Option<seq<ExternalReplication>>
    var PeriodicBackups: seq<PeriodicBackupConfiguration>

    constructor (sqlEtls: Option<seq<EtlConfiguration>>, ravenEtls: Option<seq<EtlConfiguration>>,
                 externalReplications: Option<seq<ExternalReplication>>,
                 periodicBackups: seq<PeriodicBackupConfiguration>)
      ensures SqlEtls == sqlEtls && RavenEtls == ravenEtls
      ensures ExternalReplications == externalReplications && PeriodicBackups == periodicBackups
    {
      SqlEtls := sqlEtls;
      RavenEtls := ravenEtls;
      ExternalReplications := externalReplications;
      PeriodicBackups := periodicBackups;
    }
  }

  function HasTaskId(taskId: int64): EtlConfiguration -> bool
  {
    (x: EtlConfiguration) => x.TaskId == taskId
  }

  /** `list?.Find(x => x.TaskId == taskId)` followed by `list.Remove` of what was
      found: the first entry with the id goes, and nothing else changes. */
  function RemoveTask(list: Option<seq<EtlConfiguration>>, taskId: int64): (r: Option<seq<EtlConfiguration>>)
    ensures list.None? ==> r.None?
    ensures list.Some? ==> r.Some?
    ensures list.Some? && (forall j :: 0 <= j < |list.value| ==> list.value[j].TaskId != taskId) ==> r == list
    ensures list.Some? && (exists j :: 0 <= j < |list.value| && list.value[j].TaskId == taskId) ==>
      exists k :: 0 <= k < |list.value| && list.value[k].TaskId == taskId
        && (forall j :: 0 <= j < k ==> list.value[j].TaskId != taskId)
        && r.value == list.value[..k] + list.value[k + 1..]
  {
    match list
    case None => None
    case Some(entries) =>
      match Sequences.FirstIndex(entries, HasTaskId(taskId))
      case None => list
      case Some(k) =>
        assert entries[..k] + entries[k + 1..] == Sequences.RemoveAt(entries, k);
        Some(Sequences.RemoveAt(entries, k))
  }

  /** The entries with other ids keep their order: removing the task is the same as
      dropping the first entry with its id. */
  lemma {:induction false} RemoveTaskKeepsOthers(entries: seq<EtlConfiguration>, taskId: int64)
    ensures var r := RemoveTask(Some(entries), taskId).value;
            Without(r, taskId) == Without(entries, taskId)
            && Count(r, taskId) == (if Count(entries, taskId) == 0 then 0 else Count(entries, taskId) - 1)
  {
    var r := RemoveTask(Some(entries), taskId).value;
    match Sequences.FirstIndex(entries, HasTaskId(taskId))
    case Some(k) =>
      var pre, post := entries[..k], entries[k + 1..];
      assert r == pre + post;
      assert entries == pre + ([entries[k]] + post);
      NoneBefore(pre, taskId);
      DropFirstMatch(pre, entries[k], post, taskId);
    case None =>
      NoneBefore(entries, taskId);
  }

  lemma DropFirstMatch(pre: seq<EtlConfiguration>, x: EtlConfiguration, post: seq<EtlConfiguration>, taskId: int64)
    requires Count(pre, taskId) == 0 && x.TaskId == taskId
    ensures Without(pre + ([x] + post), taskId) == Without(pre + post, taskId)
    ensures Count(pre + ([x] + post), taskId) == Count(pre + post, taskId) + 1
  {
    assert [x][1..] == [];
    SplitFilter(pre, [x] + post, taskId);
    SplitFilter([x], post, taskId);
    SplitFilter(pre, post, taskId);
  }

  /** The entries whose id is not `taskId`, in order. */
  function Without(s: seq<EtlConfiguration>, taskId: int64): seq<EtlConfiguration>
  {
    if s == [] then [] else (if s[0].TaskId == taskId then [] else [s[0]]) + Without(s[1..], taskId)
  }

  /** How many entries have id `taskId`. */
  function Count(s: seq<EtlConfiguration>, taskId: int64): nat
  {
    if s == [] then 0 else (if s[0].TaskId == taskId then 1 else 0) + Count(s[1..], taskId)
  }

  lemma {:induction false} SplitFilter(a: seq<EtlConfiguration>, b: seq<EtlConfiguration>, taskId: int64)
    ensures Without(a + b, taskId) == Without(a, taskId) + Without(b, taskId)
    ensures Count(a + b, taskId) == Count(a, taskId) + Count(b, taskId)
  {
    if a == [] {
      assert a + b == b;
    } else {
      var head := if a[0].TaskId == taskId then [] else [a[0]];
      assert (a + b)[0] == a[0];
      assert (a + b)[1..] == a[1..] + b;
      SplitFilter(a[1..], b, taskId);
      calc {
        Without(a + b, taskId);
        head + Without(a[1..] + b, taskId);
        head + (Without(a[1..], taskId) + Without(b, taskId));
        (head + Without(a[1..], taskId)) + Without(b, taskId);
        Without(a, taskId) + Without(b, taskId);
      }
    }
  }

  lemma {:induction false} NoneBefore(a: seq<EtlConfiguration>, taskId: int64)
    requires forall j :: 0 <= j < |a| ==> a[j].TaskId != taskId
    ensures Count(a, taskId) == 0
  {
    if a != [] {
      NoneBefore(a[1..], taskId);
    }
  }

  /** A request to delete the task with id `TaskId` and type `TaskType` from a database. */
  class DeleteOngoingTaskCommand {
    const TaskId: int64
    const TaskType: OngoingTaskType
    const DatabaseName: string

    constructor (taskId: int64, taskType: OngoingTaskType, databaseName: string)
      ensures TaskId == taskId && TaskType == taskType && DatabaseName == databaseName
    {
      TaskId := taskId;
      TaskType := taskType;
      DatabaseName := databaseName;
    }

    /** Applies the deletion to `record` and returns the text the command reports:
        the task id for a backup, null otherwise.  `removeWatcher` and
        `deletePeriodicBackup` stand for ExternalReplication.RemoveWatcher and
        DatabaseRecord.DeletePeriodicBackupConfiguration. */
    method UpdateDatabaseRecord(record: DatabaseRecord, etag: int64,
                                removeWatcher: (Option<seq<ExternalReplication>>, int64) -> Option<seq<ExternalReplication>>,
                                deletePeriodicBackup: (seq<PeriodicBackupConfiguration>, int64) -> seq<PeriodicBackupConfiguration>)
      returns (r: Option<string>)
      requires TaskId != 0
      modifies record
      ensures TaskType == Backup <==> r.Some?
      ensures TaskType == Backup ==> r == Some(DecimalText.ToDecimal(TaskId as int))
      ensures record.SqlEtls == (if TaskType == SqlEtl then RemoveTask(old(record.SqlEtls), TaskId) else old(record.SqlEtls))
      ensures record.RavenEtls == (if TaskType == RavenEtl then RemoveTask(old(record.RavenEtls), TaskId) else old(record.RavenEtls))
      ensures record.ExternalReplications ==
        (if TaskType == Replication then removeWatcher(old(record.ExternalReplications), TaskId)
         else old(record.ExternalReplications))
      ensures record.PeriodicBackups ==
        (if TaskType == Backup then deletePeriodicBackup(old(record.PeriodicBackups), TaskId)
         else old(record.PeriodicBackups))
    {
      match TaskType {
        case Replication =>
          record.ExternalReplications := removeWatcher(record.ExternalReplications, TaskId);
        case Backup =>
          record.PeriodicBackups := deletePeriodicBackup(record.PeriodicBackups, TaskId);
          return Some(DecimalText.ToDecimal(TaskId as int));
        case SqlEtl =>
          record.SqlEtls := RemoveTask(record.SqlEtls, TaskId);
        case RavenEtl =>
          record.RavenEtls := RemoveTask(record.RavenEtls, TaskId);
        case OtherTaskType(_) =>
      }
      return None;
    }
  }
}
