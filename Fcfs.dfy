/**
 * First-come-first-served CPU scheduling: processes run in input order
 * without preemption, so each one waits for the bursts of all processes
 * before it, and its turnaround time is its own burst plus that wait.
 */
module Fcfs {

  /** `(process_number, burst_time)`. */
  datatype Process = Process(number: int, burst: int)

  /** The total burst time of the first `n` processes. */
  function BurstsBefore(processes: seq<Process>, n: nat): int
    requires n <= |processes|
  {
    if n == 0 then 0 else BurstsBefore(processes, n - 1) + processes[n - 1].burst
  }

  /** The waiting and turnaround times `fcfs_scheduling` computes, in input
      order: the first process waits 0, each later one waits for the previous
      one's wait plus its burst, which is the sum of all earlier bursts, and a
      turnaround is burst plus wait, the sum of the bursts up to and including
      that process. An empty input still gets the initial wait of 0 and no
      turnaround. */
  method Schedule(processes: seq<Process>) returns (waiting: seq<int>, turnaround: seq<int>)
    ensures |waiting| >= 1 && waiting[0] == 0
    ensures |processes| == 0 ==> |waiting| == 1
    ensures |processes| > 0 ==> |waiting| == |processes|
    ensures |turnaround| == |processes|
    ensures forall i :: 0 <= i < |processes| ==> waiting[i] == BurstsBefore(processes, i)
    ensures forall i :: 0 <= i < |processes| ==> turnaround[i] == processes[i].burst + waiting[i]
    ensures forall i :: 0 <= i < |processes| ==> turnaround[i] == BurstsBefore(processes, i + 1)
  {
    waiting := [0];
    var i := 1;
    while i < |processes|
      invariant i == 1 || 1 <= i <= |processes|
      invariant |waiting| == i && waiting[0] == 0
      invariant forall j :: 0 <= j < i && j < |processes| ==> waiting[j] == BurstsBefore(processes, j)
    {
      var previousBurstSum := waiting[i - 1] + processes[i - 1].burst;
      waiting := waiting + [previousBurstSum];
      i := i + 1;
    }
    turnaround := [];
    for k := 0 to |processes|
      invariant |turnaround| == k
      invariant forall j :: 0 <= j < k ==> turnaround[j] == processes[j].burst + waiting[j]
    {
      var tat := processes[k].burst + waiting[k];
      turnaround := turnaround + [tat];
    }
  }

  /** With no negative burst, waiting times never decrease along the queue. */
  lemma {:induction false} WaitingNonDecreasing(processes: seq<Process>, i: nat, j: nat)
    requires forall k :: 0 <= k < |processes| ==> processes[k].burst >= 0
    requires i <= j <= |processes|
    ensures BurstsBefore(processes, i) <= BurstsBefore(processes, j)
    decreases j - i
  {
    if i < j {
      WaitingNonDecreasing(processes, i, j - 1);
      assert BurstsBefore(processes, j) == BurstsBefore(processes, j - 1) + processes[j - 1].burst;
    }
  }

  /** The run the script makes on its default input. */
  const DefaultProcesses: seq<Process> := [Process(1, 5), Process(2, 8), Process(3, 12)]

  /** On the default input the waits are 0, 5, 13 and the turnarounds 5, 13, 25. */
  lemma DefaultRun()
    ensures [BurstsBefore(DefaultProcesses, 0), BurstsBefore(DefaultProcesses, 1),
             BurstsBefore(DefaultProcesses, 2)] == [0, 5, 13]
    ensures [BurstsBefore(DefaultProcesses, 1), BurstsBefore(DefaultProcesses, 2),
             BurstsBefore(DefaultProcesses, 3)] == [5, 13, 25]
  {
  }
}
