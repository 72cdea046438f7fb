/** The Celery application's static configuration: the worker limits, the queue routing table and
    the beat (cron) schedule. The broker, the workers and the scheduler itself are not modelled. */
module CeleryConfig {
  import opened Common

  // ---------------------------------------------------------------------
  // Worker settings (`conf.update`)
  // ---------------------------------------------------------------------

  datatype Settings = Settings(
    serializer: string,
    timezone: string,
    enableUtc: bool,
    trackStarted: bool,
    taskTimeLimit: nat,        // seconds
    prefetchMultiplier: nat,
    maxTasksPerChild: nat)

  const Conf: Settings := Settings("json", "UTC", true, true, 30 * 60, 1, 1000)

  /** A task running longer than the hard time limit is killed. */
  predicate OverTimeLimit(c: Settings, runSeconds: nat) {
    runSeconds > c.taskTimeLimit
  }

  /** A worker child process is replaced once it has run this many tasks. */
  predicate ChildRecycled(c: Settings, tasksRun: nat) {
    tasksRun >= c.maxTasksPerChild
  }

  /** The limits: UTC, a 30-minute hard limit, one prefetched task, 1000 tasks per child. */
  lemma ConfLimits(runSeconds: nat, tasksRun: nat)
    ensures Conf.timezone == "UTC" && Conf.enableUtc && Conf.prefetchMultiplier == 1
    ensures OverTimeLimit(Conf, runSeconds) <==> runSeconds > 1800
    ensures ChildRecycled(Conf, tasksRun) <==> tasksRun >= 1000
  {
  }

  // ---------------------------------------------------------------------
  // Routing (`task_routes`)
  // ---------------------------------------------------------------------

  /** Celery's default queue, used when no route matches. */
  const DefaultQueue: string := "celery"

  /** A route pattern: a trailing `*` matches any suffix; otherwise the name must be equal. */
  predicate GlobMatches(glob: string, name: string) {
    if glob != [] && glob[|glob| - 1] == '*' then StartsWith(name, glob[..|glob| - 1]) else name == glob
  }

  const SendPrefix: string := "app.tasks.send_"
  const GeneratePrefix: string := "app.tasks.generate_"
  const CleanupPrefix: string := "app.tasks.cleanup_"

  /** The routing table, in declaration order: (pattern, queue). */
  const Routes: seq<(string, string)> :=
    [(SendPrefix + "*", "emails"), (GeneratePrefix + "*", "reports"), (CleanupPrefix + "*", "maintenance")]

  /** The queue of the first route whose pattern matches, else the default queue. */
  function FirstRoute(routes: seq<(string, string)>, name: string): (q: string)
    ensures q == DefaultQueue || exists i :: 0 <= i < |routes| && q == routes[i].1
    ensures (forall i :: 0 <= i < |routes| ==> !GlobMatches(routes[i].0, name)) ==> q == DefaultQueue
  {
    if routes == [] then DefaultQueue
    else if GlobMatches(routes[0].0, name) then routes[0].1
    else FirstRoute(routes[1..], name)
  }

  function Route(name: string): string {
    FirstRoute(Routes, name)
  }

  lemma RoutePatterns(name: string)
    ensures GlobMatches(Routes[0].0, name) <==> StartsWith(name, SendPrefix)
    ensures GlobMatches(Routes[1].0, name) <==> StartsWith(name, GeneratePrefix)
    ensures GlobMatches(Routes[2].0, name) <==> StartsWith(name, CleanupPrefix)
  {
    assert (SendPrefix + "*")[..|SendPrefix|] == SendPrefix;
    assert (GeneratePrefix + "*")[..|GeneratePrefix|] == GeneratePrefix;
    assert (CleanupPrefix + "*")[..|CleanupPrefix|] == CleanupPrefix;
  }

  /** The three prefixes share "app.tasks." and then differ in their next character, so no task
      name matches two routes and the table's order does not matter. */
  lemma PrefixesDisjoint(name: string)
    ensures !(StartsWith(name, SendPrefix) && StartsWith(name, GeneratePrefix))
    ensures !(StartsWith(name, SendPrefix) && StartsWith(name, CleanupPrefix))
    ensures !(StartsWith(name, GeneratePrefix) && StartsWith(name, CleanupPrefix))
  {
    if StartsWith(name, SendPrefix) {
      assert name[10] == SendPrefix[10] == 's';
    }
    if StartsWith(name, GeneratePrefix) {
      assert name[10] == GeneratePrefix[10] == 'g';
    }
    if StartsWith(name, CleanupPrefix) {
      assert name[10] == CleanupPrefix[10] == 'c';
    }
  }

  /** Each queue receives exactly the task names with its prefix; every other name goes to the
      default queue. */
  lemma RouteByPrefix(name: string)
    ensures Route(name) == "emails" <==> StartsWith(name, SendPrefix)
    ensures Route(name) == "reports" <==> StartsWith(name, GeneratePrefix)
    ensures Route(name) == "maintenance" <==> StartsWith(name, CleanupPrefix)
    ensures Route(name) == DefaultQueue <==>
      !StartsWith(name, SendPrefix) && !StartsWith(name, GeneratePrefix) && !StartsWith(name, CleanupPrefix)
  {
    RoutePatterns(name);
    PrefixesDisjoint(name);
    var rest := Routes[1..];
    var last := rest[1..];
    assert rest[0] == Routes[1] && last == [Routes[2]] && last[1..] == [];
    if StartsWith(name, SendPrefix) {
      assert Route(name) == "emails";
    } else if StartsWith(name, GeneratePrefix) {
      assert Route(name) == FirstRoute(rest, name) == "reports";
    } else if StartsWith(name, CleanupPrefix) {
      assert Route(name) == FirstRoute(rest, name) == FirstRoute(last, name) == "maintenance";
    } else {
      assert Route(name) == FirstRoute(rest, name) == FirstRoute(last, name) == FirstRoute([], name) == DefaultQueue;
    }
  }

  /** A name that differs from a prefix at some position inside both does not start with it. */
  lemma DiffersAt(name: string, prefix: string, k: nat)
    requires k < |prefix| && k < |name| && name[k] != prefix[k]
    ensures !StartsWith(name, prefix)
  {
  }

  /** The names under which the tasks module registers its tasks. */
  const TaskNames: seq<string> := [
    "app.tasks.send_welcome_email", "app.tasks.send_password_reset_email", "app.tasks.send_bulk_notification",
    "app.tasks.generate_library_report", "app.tasks.generate_user_statistics", "app.tasks.send_daily_reminders",
    "app.tasks.generate_weekly_statistics", "app.tasks.cleanup_expired_tokens", "app.tasks.backup_database",
    "app.tasks.system_health_check", "app.tasks.import_books_bulk"]

  /** The backup and the health check match no route: they run on the default queue. */
  lemma UnroutedScheduledTasks()
    ensures Route("app.tasks.backup_database") == DefaultQueue
    ensures Route("app.tasks.system_health_check") == DefaultQueue
  {
    var backup := "app.tasks.backup_database";
    DiffersAt(backup, SendPrefix, 10);
    DiffersAt(backup, GeneratePrefix, 10);
    DiffersAt(backup, CleanupPrefix, 10);
    RouteByPrefix(backup);
    var health := "app.tasks.system_health_check";
    DiffersAt(health, SendPrefix, 11);
    DiffersAt(health, GeneratePrefix, 10);
    DiffersAt(health, CleanupPrefix, 10);
    RouteByPrefix(health);
  }

  /** The bulk import matches no route either. */
  lemma UnroutedImport()
    ensures Route("app.tasks.import_books_bulk") == DefaultQueue
  {
    var bulk := "app.tasks.import_books_bulk";
    DiffersAt(bulk, SendPrefix, 10);
    DiffersAt(bulk, GeneratePrefix, 10);
    DiffersAt(bulk, CleanupPrefix, 10);
    RouteByPrefix(bulk);
  }

  // ---------------------------------------------------------------------
  // The beat schedule (`beat_schedule`)
  // ---------------------------------------------------------------------

  /** One crontab field: `*`, or the set of values it lists. */
  datatype Field = Any | Only(values: set<nat>)

  predicate Accepts(f: Field, v: nat) {
    f.Any? || v in f.values
  }

  // The crontab step form (minute="*/5" in the schedule): every step-th value below bound.
  function Every(step: nat, bound: nat): (f: Field)
    requires step > 0
    ensures forall v: nat :: v < bound ==> (Accepts(f, v) <==> v % step == 0)
  {
    Only(set v: nat | v < bound && v % step == 0)
  }

  /** Celery's `crontab(...)`: every field not given is `*`. Day of week 0 is Sunday. */
  datatype Crontab = Crontab(minute: Field, hour: Field, dayOfWeek: Field, dayOfMonth: Field, monthOfYear: Field)

  /** A wall-clock minute in UTC. */
  datatype Moment = Moment(minute: nat, hour: nat, weekday: nat, monthday: nat, month: nat)

  predicate ValidMoment(m: Moment) {
    m.minute < 60 && m.hour < 24 && m.weekday < 7 && 1 <= m.monthday <= 31 && 1 <= m.month <= 12
  }

  /** A crontab is due at a minute when every field accepts it. */
  predicate Due(c: Crontab, m: Moment) {
    Accepts(c.minute, m.minute) && Accepts(c.hour, m.hour) && Accepts(c.dayOfWeek, m.weekday)
    && Accepts(c.dayOfMonth, m.monthday) && Accepts(c.monthOfYear, m.month)
  }

  datatype BeatEntry = BeatEntry(name: string, task: string, schedule: Crontab)

  const DailyReminders: BeatEntry :=
    BeatEntry("send-daily-reminders", "app.tasks.send_daily_reminders", Crontab(Only({0}), Only({9}), Any, Any, Any))
  const WeeklyStatistics: BeatEntry :=
    BeatEntry("weekly-statistics", "app.tasks.generate_weekly_statistics", Crontab(Only({0}), Only({8}), Only({1}), Any, Any))
  const MonthlyCleanup: BeatEntry :=
    BeatEntry("monthly-cleanup", "app.tasks.cleanup_expired_tokens", Crontab(Only({0}), Only({0}), Any, Only({1}), Any))
  const DailyBackup: BeatEntry :=
    BeatEntry("daily-backup", "app.tasks.backup_database", Crontab(Only({0}), Only({2}), Any, Any, Any))
  const HealthCheck: BeatEntry :=
    BeatEntry("health-check", "app.tasks.system_health_check", Crontab(Every(5, 60), Any, Any, Any, Any))

  const BeatSchedule: seq<BeatEntry> := [DailyReminders, WeeklyStatistics, MonthlyCleanup, DailyBackup, HealthCheck]

  /** The reminders run every day at 09:00 and the backup every day at 02:00. */
  lemma DailyEntriesDue(m: Moment)
    requires ValidMoment(m)
    ensures Due(DailyReminders.schedule, m) <==> m.hour == 9 && m.minute == 0
    ensures Due(DailyBackup.schedule, m) <==> m.hour == 2 && m.minute == 0
  {
  }

  /** The statistics run on Mondays at 08:00; the cleanup on the first of the month at midnight. */
  lemma WeeklyAndMonthlyDue(m: Moment)
    requires ValidMoment(m)
    ensures Due(WeeklyStatistics.schedule, m) <==> m.weekday == 1 && m.hour == 8 && m.minute == 0
    ensures Due(MonthlyCleanup.schedule, m) <==> m.monthday == 1 && m.hour == 0 && m.minute == 0
  {
  }

  /** The health check runs at every minute divisible by five, whatever the hour and day. */
  lemma HealthCheckDue(m: Moment)
    requires ValidMoment(m)
    ensures Due(HealthCheck.schedule, m) <==> m.minute % 5 == 0
  {
  }

  /** Where the scheduled tasks run: reminders on "emails", statistics on "reports", the cleanup
      on "maintenance", and the backup and health check on the default queue. */
  lemma ScheduledTaskQueues()
    ensures Route(DailyReminders.task) == "emails"
    ensures Route(WeeklyStatistics.task) == "reports"
    ensures Route(MonthlyCleanup.task) == "maintenance"
    ensures Route(DailyBackup.task) == DefaultQueue && Route(HealthCheck.task) == DefaultQueue
  {
    RouteByPrefix(DailyReminders.task);
    assert DailyReminders.task[..|SendPrefix|] == SendPrefix;
    RouteByPrefix(WeeklyStatistics.task);
    assert WeeklyStatistics.task[..|GeneratePrefix|] == GeneratePrefix;
    RouteByPrefix(MonthlyCleanup.task);
    assert MonthlyCleanup.task[..|CleanupPrefix|] == CleanupPrefix;
    UnroutedScheduledTasks();
  }

  /** Every scheduled task is one the tasks module registers. */
  lemma ScheduledTasksExist()
    ensures forall i :: 0 <= i < |BeatSchedule| ==> BeatSchedule[i].task in TaskNames
  {
  }
}
