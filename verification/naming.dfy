/** The argument loop of main: which command-line arguments become jobs, and
    the name of the file each job writes. */
module Naming {
  import opened Decimal

  /** One image to process: the file to read and the file to write. */
  datatype Job = Job(input: string, output: string)

  /** What main does with its arguments: print the usage line when there are
      none, or start one job per accepted argument. */
  datatype Plan = Usage | Jobs(jobs: seq<Job>)

  const Extension: string := ".ppm"

  /** pat occurs in s starting at index i. */
  predicate OccursAt(s: string, pat: string, i: nat)
  {
    i + |pat| <= |s| && s[i..i + |pat|] == pat
  }

  /** strstr(s, pat) != NULL: pat occurs somewhere in s. */
  function Contains(s: string, pat: string): (b: bool)
    ensures b <==> exists i: nat :: OccursAt(s, pat, i)
    decreases |s|
  {
    if |s| < |pat| then false
    else if s[..|pat|] == pat then
      assert OccursAt(s, pat, 0);
      true
    else
      var b := Contains(s[1..], pat);
      assert forall i: nat :: OccursAt(s[1..], pat, i) <==> OccursAt(s, pat, i + 1) by {
        forall i: nat ensures OccursAt(s[1..], pat, i) <==> OccursAt(s, pat, i + 1) {
          if i + 1 + |pat| <= |s| {
            assert s[1..][i..i + |pat|] == s[i + 1..i + 1 + |pat|];
          }
        }
      }
      assert (exists i: nat :: OccursAt(s, pat, i)) ==> exists i: nat :: OccursAt(s[1..], pat, i) by {
        if exists i: nat :: OccursAt(s, pat, i) {
          var i: nat :| OccursAt(s, pat, i);
          assert i != 0;
          assert OccursAt(s[1..], pat, i - 1);
        }
      }
      b
  }

  /** An argument main accepts as an input image. */
  predicate IsImageName(arg: string)
  {
    Contains(arg, Extension)
  }

  /** The accepted arguments, in command-line order. */
  function Accepted(args: seq<string>): (acc: seq<string>)
    ensures |acc| <= |args|
    ensures forall k :: 0 <= k < |acc| ==> IsImageName(acc[k])
  {
    if args == [] then []
    else if IsImageName(args[|args| - 1]) then Accepted(args[..|args| - 1]) + [args[|args| - 1]]
    else Accepted(args[..|args| - 1])
  }

  /** "laplacian%d.ppm" for job number k. */
  function OutputName(k: nat): (name: string)
    ensures |name| == 13 + |DecimalString(k)|
    ensures name[..9] == "laplacian" && name[|name| - 4..] == Extension
    ensures name[9..|name| - 4] == DecimalString(k)
  {
    "laplacian" + DecimalString(k) + Extension
  }

  /** The loop of main over argv[1..]: an accepted argument gets the next job
      number, counted from 1 among accepted arguments only; any other
      argument is reported and skipped. */
  method PlanJobs(args: seq<string>) returns (plan: Plan)
    ensures args == [] <==> plan == Usage
    ensures plan.Jobs? ==> |plan.jobs| == |Accepted(args)|
    ensures plan.Jobs? ==> forall k :: 0 <= k < |plan.jobs| ==>
      plan.jobs[k] == Job(Accepted(args)[k], OutputName(k + 1))
  {
    if |args| == 0 {
      return Usage;
    }
    var jobs: seq<Job> := [];
    var count := 0;
    for i := 0 to |args|
      invariant count == |jobs| == |Accepted(args[..i])|
      invariant forall k :: 0 <= k < count ==> jobs[k] == Job(Accepted(args[..i])[k], OutputName(k + 1))
    {
      assert args[..i + 1][..i] == args[..i];
      if Contains(args[i], Extension) {
        jobs := jobs + [Job(args[i], OutputName(count + 1))];
        count := count + 1;
      }
    }
    assert args[..|args|] == args;
    plan := Jobs(jobs);
  }

  /** An argument is accepted exactly when it contains ".ppm". */
  lemma {:induction false} AcceptedMembership(args: seq<string>, a: string)
    ensures a in Accepted(args) <==> a in args && IsImageName(a)
    decreases |args|
  {
    if args != [] {
      var init := args[..|args| - 1];
      AcceptedMembership(init, a);
      assert args == init + [args[|args| - 1]];
    }
  }

  /** Accepting commutes with splitting the argument list. */
  lemma {:induction false} AcceptedAppend(a: seq<string>, b: seq<string>)
    ensures Accepted(a + b) == Accepted(a) + Accepted(b)
    decreases |b|
  {
    if b == [] {
      assert a + b == a;
    } else {
      var init := b[..|b| - 1];
      AcceptedAppend(a, init);
      assert (a + b)[..|a + b| - 1] == a + init;
    }
  }

  /** The accepted argument at index i of argv[1..] gets job number one more
      than the number of accepted arguments before it; a rejected argument
      leaves the count where it was. */
  lemma NumberOfArgument(args: seq<string>, i: nat)
    requires i < |args|
    ensures IsImageName(args[i]) ==>
      |Accepted(args[..i])| < |Accepted(args)| && Accepted(args)[|Accepted(args[..i])|] == args[i]
    ensures !IsImageName(args[i]) ==> Accepted(args[..i + 1]) == Accepted(args[..i])
  {
    assert args == args[..i] + ([args[i]] + args[i + 1..]);
    AcceptedAppend(args[..i], [args[i]] + args[i + 1..]);
    AcceptedAppend([args[i]], args[i + 1..]);
    assert args[..i + 1] == args[..i] + [args[i]];
    AcceptedAppend(args[..i], [args[i]]);
    assert Accepted([args[i]]) == Accepted([]) + (if IsImageName(args[i]) then [args[i]] else []) by {
      assert [args[i]][..0] == [];
    }
  }

  /** n is recovered from its decimal string, so distinct job numbers give
      distinct strings. */
  lemma DecimalStringInjective(m: nat, n: nat)
    requires DecimalString(m) == DecimalString(n)
    ensures m == n
  {
    var dm, dn := Digits(m), Digits(n);
    assert dm == dn by {
      forall i | 0 <= i < |dm|
        ensures dm[i] == dn[i]
      {
        assert DecimalString(m)[i] == DecimalString(n)[i];
      }
    }
    ValueOfDigits(m);
    ValueOfDigits(n);
  }

  /** Different jobs write different files. */
  lemma OutputNamesDistinct(j: nat, k: nat)
    requires j != k
    ensures OutputName(j) != OutputName(k)
  {
    if OutputName(j) == OutputName(k) {
      var sj, sk := DecimalString(j), DecimalString(k);
      assert |sj| == |sk|;
      assert sj == OutputName(j)[9..9 + |sj|];
      assert sk == OutputName(k)[9..9 + |sk|];
      DecimalStringInjective(j, k);
    }
  }
}
