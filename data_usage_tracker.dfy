/** The data usage tracker as the object the agent holds: its fields are updated in
    place, each method is one section of the source that runs under the lock, and
    each is proved to perform the matching step of UsageSpec. The scheduler's queue
    and the usage file are fields too; the scheduler running a task is the method
    RunScheduledTask, and each failure the environment can raise is a parameter. */
module Config {
  import opened UsageSpec

  class DataUsageTracker {
    var bytesSent: Long
    var currentWriteTask: Option<WriteTask>
    // The scheduler: the tasks it will still run, and the id of the next task.
    var scheduled: map<nat, Long>
    var nextTaskId: nat
    // The usage file; None when it does not exist.
    var file: Option<Document>
    ghost var cancelled: set<nat>
    ghost var written: seq<Long>

    /** The abstract value of this tracker. */
    ghost function Model(): Tracker
      reads this
    {
      Tracker(bytesSent, currentWriteTask, scheduled, cancelled, nextTaskId, file, written)
    }

    ghost predicate Valid()
      reads this
    {
      UsageSpec.Valid(Model())
    }

    /** A new tracker holds zero usage and no write task; `file` is the usage file
        as it is found on disk. */
    constructor (file: Option<Document>)
      ensures Valid() && Model() == Initial(file)
    {
      bytesSent := 0;
      currentWriteTask := None;
      scheduled := map[];
      nextTaskId := 0;
      this.file := file;
      cancelled := {};
      written := [];
    }

    /** Load the usage from the file, creating the file with 0 when it is missing.
        Returns the exception that escapes, if any. */
    method Start(writeFault: Option<Fault>, readFault: Option<Fault>) returns (raised: Option<Fault>)
      requires Valid()
      modifies this
      ensures Valid()
      ensures (Model(), raised) == UsageSpec.Start(old(Model()), writeFault, readFault)
      ensures raised != None ==> raised == Some(SecurityFault)
      ensures readFault == None && old(file).Some? && old(file).value.Usage? ==> bytesSent == old(file).value.usage
      ensures readFault == None && old(file) == None && writeFault == None ==> bytesSent == 0
      ensures currentWriteTask == old(currentWriteTask) && scheduled == old(scheduled)
    {
      raised := None;
      if file == None {
        var thrown := WriteUsageToDisk(0, writeFault);
        if thrown.Some? {
          raised := Uncaught(thrown.value);
          return;
        }
      }
      if readFault.Some? {
        raised := Uncaught(readFault.value);
        return;
      }
      match ParsedUsage(file.value)
      case None =>
      case Some(n) => bytesSent := n;
    }

    /** The number of bytes sent so far. */
    method GetBytesSent() returns (n: Long)
      ensures n == bytesSent
    {
      n := bytesSent;
    }

    /** Add `moreBytes` to the count, unless it is below 1, and request a write.
        `scheduleOk` is false when the scheduler refuses the write task. */
    method AddMoreData(moreBytes: Long, scheduleOk: bool)
      requires Valid()
      modifies this
      ensures Valid()
      ensures Model() == UsageSpec.AddMoreData(old(Model()), moreBytes, scheduleOk)
      ensures moreBytes < 1 ==> Model() == old(Model())
      ensures moreBytes >= 1 && old(bytesSent) as int + moreBytes as int <= MaxLong ==>
                bytesSent as int == old(bytesSent) as int + moreBytes as int
      ensures moreBytes >= 1 && scheduleOk ==>
                currentWriteTask == Some(WriteTask(old(nextTaskId), bytesSent)) &&
                scheduled == map[old(nextTaskId) := bytesSent]
      ensures file == old(file)
    {
      if moreBytes < 1 {
        return;
      }
      bytesSent := Wrap(bytesSent as int + moreBytes as int);
      SaveUsage(bytesSent, scheduleOk);
    }

    /** Set the count to zero and request a write of zero. */
    method Reset(scheduleOk: bool)
      requires Valid()
      modifies this
      ensures Valid()
      ensures Model() == UsageSpec.Reset(old(Model()), scheduleOk)
      ensures bytesSent == 0
      ensures scheduleOk ==>
                currentWriteTask == Some(WriteTask(old(nextTaskId), 0)) &&
                scheduled == map[old(nextTaskId) := 0]
      ensures file == old(file)
    {
      bytesSent := 0;
      SaveUsage(bytesSent, scheduleOk);
    }

    /** Cancel the waiting write task, if any, and schedule a new one carrying
        `givenUsage`. A refused schedule leaves the handle as it was. */
    method SaveUsage(givenUsage: Long, scheduleOk: bool)
      requires Valid()
      modifies this
      ensures Model() == UsageSpec.SaveUsage(old(Model()), givenUsage, scheduleOk)
      ensures Valid()
      ensures old(currentWriteTask).Some? ==> old(currentWriteTask).value.id !in scheduled
      ensures bytesSent == old(bytesSent) && file == old(file)
    {
      if currentWriteTask.Some? {
        CancelTask(currentWriteTask.value.id);
      }
      if scheduleOk {
        var id := nextTaskId;
        nextTaskId := nextTaskId + 1;
        scheduled := scheduled[id := givenUsage];
        currentWriteTask := Some(WriteTask(id, givenUsage));
      }
    }

    /** The scheduler's `cancel(false)`: a task that has not run yet never will. */
    method CancelTask(id: nat)
      requires Valid()
      modifies this
      ensures Model() == Cancel(old(Model()), id)
      ensures Valid()
      ensures id !in scheduled
    {
      if id in scheduled {
        scheduled := scheduled - {id};
        cancelled := cancelled + {id};
      }
    }

    /** The scheduler runs task `id`: unless it was cancelled or already ran, the
        task clears the handle and then writes the usage it captured. `fault` is
        what the write raises; it is logged and goes no further. */
    method RunScheduledTask(id: nat, fault: Option<Fault>)
      requires Valid()
      modifies this
      ensures Valid()
      ensures Model() == RunTask(old(Model()), id, fault)
      ensures id in old(cancelled) ==> Model() == old(Model())
      ensures bytesSent == old(bytesSent)
      ensures id in old(scheduled) ==> currentWriteTask == None && scheduled == map[]
      ensures id in old(scheduled) && fault == None ==> file == Some(Usage(old(scheduled)[id]))
    {
      if id !in scheduled {
        return;
      }
      var givenUsage := scheduled[id];
      scheduled := scheduled - {id};
      currentWriteTask := None;
      assert scheduled == map[] by {
        assert scheduled.Keys == {};
      }
      var _ := WriteUsageToDisk(givenUsage, fault);
    }

    /** Replace the usage file by {"usage": usage}; `fault` is what the file system
        raises instead, which is returned as thrown. */
    method WriteUsageToDisk(usage: Long, fault: Option<Fault>) returns (thrown: Option<Fault>)
      modifies this`file, this`written
      ensures Model() == UsageSpec.WriteUsageToDisk(old(Model()), usage, fault)
      ensures thrown == fault
      ensures fault == None ==> file == Some(Usage(usage))
      ensures fault != None ==> file == old(file)
    {
      thrown := fault;
      if fault == None {
        file := Some(Usage(usage));
        written := written + [usage];
      }
    }
  }
}
