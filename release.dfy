/** The decisions in the release script (scripts/release.js): which npm
    dist-tag a version is published under, whether it gets a git tag, and the
    one-time-password prompt. The shell commands themselves (git, npm, build,
    publish) are not modelled; the user's answers to the prompt are a
    sequence, read one per prompt. */
module Release {
  import opened Wrappers
  import opened Builtins

  datatype Tag = Latest | Next | Canary

  function TagName(t: Tag): (s: string)
    ensures s in {"latest", "next", "canary"}
  {
    match t
    case Latest => "latest"
    case Next => "next"
    case Canary => "canary"
  }

  predicate IsPrerelease(version: string) {
    Contains(version, "-alpha.") || Contains(version, "-beta.") || Contains(version, "-rc.")
  }

  predicate IsCanary(version: string) {
    Contains(version, "-canary.")
  }

  /** `let tag = "latest"`, overwritten by the pre-release test and then by
      the canary test, so a canary marker decides even next to another. */
  method SelectTag(version: string) returns (tag: Tag)
    ensures tag == Canary <==> IsCanary(version)
    ensures tag == Next <==> !IsCanary(version) && IsPrerelease(version)
    ensures tag == Latest <==> !IsCanary(version) && !IsPrerelease(version)
  {
    tag := Latest;
    if IsPrerelease(version) {
      tag := Next;
    }
    if IsCanary(version) {
      tag := Canary;
    }
  }

  /** The do-while loop: prompt, set `otpArg` to `["--otp", code]`, repeat
      while `code.length` is not 6. `asked` counts the answers read; `None`
      means the answers ran out while the script was still prompting. Without
      two-factor auth on writes, no prompt and no arguments. */
  method PromptOneTimePassword(twoFactorWrites: bool, answers: seq<string>)
    returns (otpArg: Option<seq<string>>, asked: nat)
    ensures !twoFactorWrites ==> otpArg == Some([]) && asked == 0
    ensures twoFactorWrites && otpArg.Some? ==>
      && 1 <= asked <= |answers|
      && Utf16Length(answers[asked - 1]) == 6
      && otpArg.value == ["--otp", answers[asked - 1]]
      && forall i :: 0 <= i < asked - 1 ==> Utf16Length(answers[i]) != 6
    ensures twoFactorWrites && otpArg.None? ==>
      asked == |answers| && forall i :: 0 <= i < |answers| ==> Utf16Length(answers[i]) != 6
  {
    otpArg := Some([]);
    asked := 0;
    if twoFactorWrites {
      var code := "";
      var prompting := true;
      while prompting && asked < |answers|
        invariant asked <= |answers|
        invariant prompting ==> forall i :: 0 <= i < asked ==> Utf16Length(answers[i]) != 6
        invariant !prompting ==>
          && 1 <= asked
          && code == answers[asked - 1]
          && Utf16Length(code) == 6
          && otpArg == Some(["--otp", code])
          && forall i :: 0 <= i < asked - 1 ==> Utf16Length(answers[i]) != 6
        decreases |answers| - asked
      {
        code := answers[asked];
        asked := asked + 1;
        otpArg := Some(["--otp", code]);
        prompting := Utf16Length(code) != 6;
      }
      if prompting {
        otpArg := None;
      }
    }
  }

  /** The outcome of one run: the dist-tag, the git tag created (if any) and
      the arguments of `pnpm publish` (absent while still prompting). */
  datatype ReleasePlan = ReleasePlan(tag: Tag, gitTag: Option<string>, publishArgs: Option<seq<string>>)

  method Release(version: string, twoFactorWrites: bool, answers: seq<string>) returns (plan: ReleasePlan)
    ensures plan.tag == Canary <==> IsCanary(version)
    ensures plan.tag == Latest <==> !IsCanary(version) && !IsPrerelease(version)
    ensures plan.gitTag.Some? <==> plan.tag == Latest
    ensures plan.gitTag.Some? ==> plan.gitTag.value == version
    ensures !twoFactorWrites ==>
      plan.publishArgs == Some(["publish", "--no-git-checks", "--tag", TagName(plan.tag)])
    ensures plan.publishArgs.Some? ==>
      && 4 <= |plan.publishArgs.value|
      && plan.publishArgs.value[..4] == ["publish", "--no-git-checks", "--tag", TagName(plan.tag)]
      && (twoFactorWrites ==> |plan.publishArgs.value| == 6 && plan.publishArgs.value[4] == "--otp"
                              && Utf16Length(plan.publishArgs.value[5]) == 6)
    ensures twoFactorWrites && plan.publishArgs.Some? ==>
      exists k :: 0 <= k < |answers| && Utf16Length(answers[k]) == 6
        && (forall i :: 0 <= i < k ==> Utf16Length(answers[i]) != 6)
        && plan.publishArgs.value[5] == answers[k]
    ensures plan.publishArgs.None? <==>
      twoFactorWrites && forall i :: 0 <= i < |answers| ==> Utf16Length(answers[i]) != 6
  {
    var tag := SelectTag(version);
    var gitTag: Option<string> := None;
    if tag == Latest {
      gitTag := Some(version);
    }
    var otpArg, asked := PromptOneTimePassword(twoFactorWrites, answers);
    var publishArgs: Option<seq<string>> := None;
    if otpArg.Some? {
      var command := ["publish", "--no-git-checks", "--tag", TagName(tag)];
      assert (command + otpArg.value)[..4] == command;
      assert !twoFactorWrites ==> command + otpArg.value == command;
      publishArgs := Some(command + otpArg.value);
      if twoFactorWrites {
        assert publishArgs.value[5] == answers[asked - 1];
      }
    }
    plan := ReleasePlan(tag, gitTag, publishArgs);
  }
}
