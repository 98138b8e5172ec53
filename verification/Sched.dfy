/**
 The task table of kernal/sched.c and the context switch of kernal/switch_riscv.s, which
 stores the processor's registers into one context record and loads them from another.
 */
module Sched {
  import opened Memory
  import opened SchedSpec

  /** Fourteen 64-bit cells: struct task_context, and equally the register file it mirrors. */
  class Context {
    var ra: u64
    var sp: u64
    var s0: u64
    var s1: u64
    var s2: u64
    var s3: u64
    var s4: u64
    var s5: u64
    var s6: u64
    var s7: u64
    var s8: u64
    var s9: u64
    var s10: u64
    var s11: u64

    constructor (r: Regs)
      ensures Value() == r
    {
      ra, sp, s0, s1, s2, s3, s4 := r.ra, r.sp, r.s0, r.s1, r.s2, r.s3, r.s4;
      s5, s6, s7, s8, s9, s10, s11 := r.s5, r.s6, r.s7, r.s8, r.s9, r.s10, r.s11;
    }

    ghost function Value(): Regs
      reads this
    {
      Regs(ra, sp, s0, s1, s2, s3, s4, s5, s6, s7, s8, s9, s10, s11)
    }

    /** One half of context_switch: register by register, in the order of the record. */
    method Copy(from: Context)
      requires this != from
      modifies this
      ensures Value() == from.Value()
    {
      CopyLow(from);
      CopyHigh(from);
    }

    method CopyLow(from: Context)
      requires this != from
      modifies this`ra, this`sp, this`s0, this`s1, this`s2, this`s3, this`s4
      ensures ra == from.ra && sp == from.sp
      ensures s0 == from.s0 && s1 == from.s1 && s2 == from.s2 && s3 == from.s3 && s4 == from.s4
    {
      ra := from.ra;
      sp := from.sp;
      s0 := from.s0;
      s1 := from.s1;
      s2 := from.s2;
      s3 := from.s3;
      s4 := from.s4;
    }

    method CopyHigh(from: Context)
      requires this != from
      modifies this`s5, this`s6, this`s7, this`s8, this`s9, this`s10, this`s11
      ensures s5 == from.s5 && s6 == from.s6 && s7 == from.s7
      ensures s8 == from.s8 && s9 == from.s9 && s10 == from.s10 && s11 == from.s11
    {
      s5 := from.s5;
      s6 := from.s6;
      s7 := from.s7;
      s8 := from.s8;
      s9 := from.s9;
      s10 := from.s10;
      s11 := from.s11;
    }

    /** The context create_task sets up. */
    method Prepare(entry: u64, stack: u64)
      modifies this
      ensures Value() == InitialContext(entry, stack)
    {
      ra := entry;
      sp := stack;
      s0 := 0;
      s1 := 0;
      s2 := 0;
      s3 := 0;
      s4 := 0;
      ClearHigh();
    }

    method ClearHigh()
      modifies this`s5, this`s6, this`s7, this`s8, this`s9, this`s10, this`s11
      ensures s5 == s6 == s7 == s8 == s9 == s10 == s11 == 0
    {
      s5 := 0;
      s6 := 0;
      s7 := 0;
      s8 := 0;
      s9 := 0;
      s10 := 0;
      s11 := 0;
    }
  }

  /** context_switch(old, new): fourteen stores, then fourteen loads. */
  method ContextSwitch(cpu: Context, old_: Context, new_: Context)
    requires cpu != old_ && cpu != new_
    modifies cpu, old_
    ensures old_.Value() == old(cpu.Value())
    ensures cpu.Value() == if old_ == new_ then old(cpu.Value()) else old(new_.Value())
  {
    old_.Copy(cpu);
    cpu.Copy(new_);
  }

  lemma SuccIsMod(i: int, n: int)
    requires 0 <= i < n
    ensures Succ(i, n) == (i + 1) % n
  {
  }

  class TaskSlot {
    var pid: int
    var state: TaskState
    const context: Context
    const stack: u64   // address of the last byte of the slot's stack

    constructor (pid: int, stack: u64)
      ensures fresh(context) && this.stack == stack
      ensures Value() == Task(pid, Unused, Regs(0, 0, 0, 0, 0, 0, 0, 0, 0, 0, 0, 0, 0, 0))
    {
      this.pid, state, this.stack := pid, Unused, stack;
      context := new Context(Regs(0, 0, 0, 0, 0, 0, 0, 0, 0, 0, 0, 0, 0, 0));
    }

    ghost function Value(): Task
      reads this, context
    {
      Task(pid, state, context.Value())
    }
  }

  class Scheduler {
    const tasks: seq<TaskSlot>
    const cpu: Context
    var currentTask: int
    var numTasks: int
    ghost var model: State
    ghost const parts: set<object>   // the slots, their contexts and the register file

    /** Eight separate unused slots, each with its own pid. */
    static method ClearTable(stacks: seq<u64>) returns (slots: seq<TaskSlot>, ghost records: set<object>)
      requires |stacks| == MAX_TASKS
      ensures |slots| == MAX_TASKS && fresh(records) && forall o :: o in records ==> o is TaskSlot || o is Context
      ensures forall k :: 0 <= k < MAX_TASKS ==> slots[k] in records && slots[k].context in records
      ensures forall k :: 0 <= k < MAX_TASKS ==> slots[k].stack == stacks[k]
      ensures forall r, k :: 0 <= k < MAX_TASKS ==> slots[k].Value() == Cleared(stacks, r).tasks[k]
      ensures forall k, l :: 0 <= k < l < MAX_TASKS ==> slots[k] != slots[l] && slots[k].context != slots[l].context
    {
      slots, records := [], {};
      for i := 0 to MAX_TASKS
        invariant |slots| == i && fresh(records) && forall o :: o in records ==> o is TaskSlot || o is Context
        invariant forall k :: 0 <= k < i ==> slots[k] in records && slots[k].context in records
        invariant forall k :: 0 <= k < i ==> slots[k].stack == stacks[k]
        invariant forall r, k :: 0 <= k < i ==> slots[k].Value() == Cleared(stacks, r).tasks[k]
        invariant forall k, l :: 0 <= k < l < i ==> slots[k] != slots[l] && slots[k].context != slots[l].context
      {
        var slot := new TaskSlot(i, stacks[i]);
        slots, records := slots + [slot], records + {slot, slot.context};
      }
    }

    /** The cleared task table, running as slot 0. */
    constructor (stacks: seq<u64>, cpu: Context)
      requires |stacks| == MAX_TASKS
      ensures Valid() && model == Cleared(stacks, cpu.Value()) && this.cpu == cpu
      ensures fresh(parts - {cpu})
    {
      ghost var records;
      var slots;
      slots, records := ClearTable(stacks);
      tasks, this.cpu, parts := slots, cpu, records + {cpu};
      currentTask, numTasks := 0, 0;
      model := Cleared(stacks, cpu.Value());
      new;
      hide Context.Value;
      assert Separate();
    }

    /** The eight slots and their contexts are separate records, and model tells what they hold. */
    ghost predicate Ok()
      reads this, parts
    {
      && Separate() && |model.tasks| == |model.stacks| == MAX_TASKS
      && (forall i :: 0 <= i < MAX_TASKS ==> tasks[i].Value() == model.tasks[i] && tasks[i].stack == model.stacks[i])
      && model.current == currentTask && model.num == numTasks && model.cpu == cpu.Value()
    }

    /** The slots, their contexts and the register file are different objects. */
    ghost predicate Separate() {
      && |tasks| == MAX_TASKS && cpu in parts
      && (forall i, j :: 0 <= i < j < MAX_TASKS ==> tasks[i] != tasks[j] && tasks[i].context != tasks[j].context)
      && (forall i :: 0 <= i < MAX_TASKS ==> tasks[i].context != cpu && tasks[i] in parts && tasks[i].context in parts)
      && (forall o :: o in parts ==> o is TaskSlot || o is Context)
    }

    ghost predicate Valid()
      reads this, parts
    {
      Ok() && SchedSpec.Valid(model)
    }

    method CreateTask(entry: u64) returns (pid: int)
      requires Valid()
      modifies this, parts
      ensures Valid() && (model, pid) == SchedSpec.CreateTask(old(model), entry)
    {
      if numTasks >= MAX_TASKS {
        return -1;
      }
      var task := tasks[numTasks];
      task.state := Ready;
      task.pid := numTasks;
      task.context.Prepare(entry, task.stack);
      numTasks := numTasks + 1;
      model := SchedSpec.CreateTask(model, entry).0;
      return task.pid;
    }

    /** The ring scan of schedule. */
    method FindNext() returns (nextTask: int)
      requires Valid() && numTasks > 1
      ensures nextTask == Scan(model, Succ(currentTask, numTasks))
    {
      SuccIsMod(currentTask, numTasks);
      nextTask := (currentTask + 1) % numTasks;
      while nextTask != currentTask && tasks[nextTask].state != Ready
        invariant 0 <= nextTask < numTasks
        invariant Scan(model, nextTask) == Scan(model, Succ(currentTask, numTasks))
        decreases Distance(nextTask, currentTask, numTasks)
      {
        assert tasks[nextTask].Value() == model.tasks[nextTask];
        SuccIsMod(nextTask, numTasks);
        nextTask := (nextTask + 1) % numTasks;
      }
      assert tasks[nextTask].Value() == model.tasks[nextTask];
    }

    method Schedule()
      requires Valid()
      modifies this, parts
      ensures Valid() && model == SchedSpec.Schedule(old(model))
    {
      if numTasks <= 1 {
        return;
      }
      var nextTask := FindNext();
      if nextTask != currentTask {
        SwitchTo(nextTask);
      }
    }

    /** The second half of schedule: update the states and switch contexts. */
    method SwitchTo(nextTask: int)
      requires Valid() && numTasks > 1 && nextTask != currentTask
      requires nextTask == Scan(model, Succ(currentTask, numTasks))
      modifies this, parts
      ensures Valid() && model == SchedSpec.Schedule(old(model))
    {
      StepKeepsValid(model, Yield);
      ghost var before := model;
      hide Ok, Scan;
      assert Ok() && model.current == currentTask by { CurrentIs(); }
      var oldTask := currentTask;
      SwitchStates(oldTask, nextTask);
      SwitchRegisters(oldTask, nextTask);
      assert model == SchedSpec.Schedule(before);
    }

    lemma CurrentIs()
      requires Ok()
      ensures model.current == currentTask && |model.tasks| == |tasks| == MAX_TASKS
    {
    }

    method SwitchStates(oldTask: int, nextTask: int)
      requires Ok() && 0 <= oldTask < MAX_TASKS && 0 <= nextTask < MAX_TASKS && oldTask != nextTask
      modifies this, parts
      ensures Ok() && |old(model.tasks)| == MAX_TASKS
      ensures var (o, n) := (old(model.tasks)[oldTask], old(model.tasks)[nextTask]);
        model == old(model).(
          tasks := old(model.tasks)[oldTask := o.(state := if o.state == Running then Ready else o.state)]
                                   [nextTask := n.(state := Running)],
          current := nextTask)
    {
      assert tasks[oldTask].Value() == model.tasks[oldTask] && tasks[nextTask].Value() == model.tasks[nextTask];
      hide Context.Value;
      if tasks[oldTask].state == Running {
        tasks[oldTask].state := Ready;
      }
      tasks[nextTask].state := Running;
      currentTask := nextTask;
      model := model.(tasks := model.tasks[oldTask := tasks[oldTask].Value()][nextTask := tasks[nextTask].Value()],
                      current := nextTask);
    }

    method SwitchRegisters(oldTask: int, nextTask: int)
      requires Ok() && 0 <= oldTask < MAX_TASKS && 0 <= nextTask < MAX_TASKS && oldTask != nextTask
      modifies this`model, parts
      ensures Ok() && |old(model.tasks)| == MAX_TASKS
      ensures model == old(model).(
        tasks := old(model.tasks)[oldTask := old(model.tasks)[oldTask].(context := old(model.cpu))],
        cpu := old(model.tasks)[nextTask].context)
    {
      assert tasks[oldTask].Value() == model.tasks[oldTask] && tasks[nextTask].Value() == model.tasks[nextTask];
      hide Context.Value;
      ContextSwitch(cpu, tasks[oldTask].context, tasks[nextTask].context);
      model := model.(tasks := model.tasks[oldTask := tasks[oldTask].Value()], cpu := model.tasks[nextTask].context);
    }

    method TaskYield()
      requires Valid()
      modifies this, parts
      ensures Valid() && model == SchedSpec.Schedule(old(model))
    {
      if numTasks > 1 {
        Schedule();
      }
    }

    /** The SYS_EXIT branch of handle_syscall. */
    method ExitTask()
      requires Valid()
      modifies this, parts
      ensures Valid() && model == ExitCurrent(old(model))
    {
      if currentTask >= 0 && currentTask < MAX_TASKS {
        tasks[currentTask].state := Unused;
        model := model.(tasks := model.tasks[currentTask := model.tasks[currentTask].(state := Unused)]);
        TaskYield();
      }
    }
  }
}
