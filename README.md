# Employee management system: a verified model of its core

The system is a small employee-management application. An Express backend
keeps one in-memory document of seven lists: employees, attendance records,
tasks, leave requests, announcements, issues and work-hour entries. Each REST
route reads or changes one of those lists. An email service mails HR and the
department heads when an announcement is posted and when a leave request is
filed or reviewed (approved or rejected). The service also has an issue
notice, `sendIssueNotification`, but no route calls it. A
React client shows a different dashboard to each role and department. An
older stand-alone page (`script.js`) keeps its own four lists in the browser.

This Dafny project models the parts of that system that decide something:

- **Server routes.** Modules `Employees`, `Attendance`, `Tasks`, `Leave`,
  `WorkHours`, `Issues`, `Announcements` and `Auth` hold one function per
  route. Each function maps the document and the request to the new lists
  and an `Http.Outcome`: `Ok`, `BadRequest`, `NotFound`, `Unauthorized` or
  `ServerError`. Lemmas state what each route promises: validation errors,
  id assignment (`max + 1`, or `length + 1` where the code does that), the
  attendance upsert, the leave-balance reset and deduction, the recurring-task
  reset, the open work-hours entry, and "nothing else changes".
- **The store.** `Server.Store` is a class with one field per collection and
  one method per route. Each method's postcondition ties the new fields and
  the answer to the route function, and keeps the document invariant: ids
  unique, balances non-negative, at most one open work-hours entry per
  employee and day. `Auth.UserDirectory` is the module-level user list that
  `register` pushes onto. The raw JSON body values the routes compare with
  `===` are modelled as `Js.Val`.
- **Email recipients.** `Email` models `getDepartmentEmails` (split, dedupe,
  filter on '@', trim) and the enabled and recipient gates of the three
  notification sends. The issue notice (`Email.EmailService.IssueNotification`)
  is modelled as the service defines it, although no route calls it. `Email.EmailService` holds the `isEnabled` flag.
- **Client views.** `IssuesView` models the issue list's visibility, filter,
  sort and management rule. `HrDashboard` models the month grid, the monthly
  attendance and leave summaries and the holiday list. `TemplateDashboard`
  models the six-week grid loop, the department slices and the day's
  attendance rate. `Routing` models the role and department to dashboard
  table of `App`.
- **The stand-alone page.** `Legacy` models the page's data handlers and its
  task-approval flow. `Legacy.App` holds the four global lists and keeps ids
  unique.
- **Shared helpers.** `Js` models JavaScript value semantics: truthiness,
  `===`, `||`, `parseInt` and half-up rounding. `Text` models `trim`,
  `split` and string order. `Seqs` models `filter`, `findIndex`, `splice`,
  `Math.max` and the id rules. `Calendar` converts between day numbers and
  civil dates.

Dates are whole day numbers counted from 1970-01-01. Instants are integer
milliseconds. Every clock read of the source is a `today` or `now`
parameter.

## Model

| member | source | states |
|---|---|---|
| Http.IndexOfKey | backend/routes/employees.js:53 | `findIndex(e => e.id === parseInt(id))`: -1 exactly when no record's id is `===` the key; otherwise the first index whose id matches |
| Http.IndexOfOwnKey | backend/routes/employees.js:13 | with unique ids, looking up the id of the j-th record finds position j |
| Http.FindById | backend/routes/employees.js:11-19 | the record whose id is `===` the key, or 404; Ok exactly when some record has that id, and the answer is a member with that id |
| Http.DeleteById | backend/routes/employees.js:77-86 | 404 and the unchanged list exactly when no id matches; otherwise the success message and one record fewer |
| Http.DeleteRemovesExactlyOne | backend/routes/employees.js:83 | under unique ids `splice(i, 1)` leaves the ids unique, leaves no record with that id, and the result is the list with the i-th record cut out |
| Http.ByEmployee | backend/routes/attendance.js:20 | the per-employee listing holds exactly the records whose `employeeId` is `===` the key |
| Employees.Get | backend/routes/employees.js:11-19 | 404 "Employee not found" exactly when no employee has the parsed id; otherwise an employee with that id |
| Employees.Create | backend/routes/employees.js:23-45 | 400 exactly when name, email or position is empty; otherwise a new employee with id one above every existing id (1 for none), the given fields, leave balance 2 and reset time now |
| Employees.Update | backend/routes/employees.js:49-69 | 404 exactly when the id is unknown; otherwise the found record with each of name, email, position replaced only by a non-empty value and id, balance and reset time kept |
| Employees.Delete | backend/routes/employees.js:73-87 | 404 and nothing removed exactly when the id is unknown; otherwise the success message |
| Employees.CreateThenGet | backend/routes/employees.js:23-45 | appending a created employee keeps ids unique and balances non-negative, and a get by its id returns it |
| Employees.UpdateThenGet | backend/routes/employees.js:49-69 | writing back an update keeps the invariant, and a get by the same key returns the merged record |
| Employees.EmptyUpdateIsIdentity | backend/routes/employees.js:63-65 | an update with all fields empty returns the stored record unchanged |
| Employees.DeleteKeepsValid | backend/routes/employees.js:77-83 | a delete keeps the invariant, and a get by that key afterwards answers 404 |
| Attendance.List | backend/routes/attendance.js:5-15 | with no date every record; with a date exactly the records of that date |
| Attendance.ListByEmployee | backend/routes/attendance.js:18-22 | exactly the records whose `employeeId` is `===` the parsed path id |
| Attendance.Remaining | backend/routes/attendance.js:36-38 | exactly the records that are not this employee's record for this date, compared with `===` against the raw body value |
| Attendance.Mark | backend/routes/attendance.js:25-52 | 400 and no change exactly when employee id, date or status is falsy; otherwise the remaining records plus the new one, whose id is one above the largest remaining id and whose employee id is `parseInt` of the body value |
| Attendance.Delete | backend/routes/attendance.js:55-69 | 404 and no change exactly when no record has the id; otherwise the success message |
| Attendance.MarkKeepsValid | backend/routes/attendance.js:36-48 | marking keeps record ids unique |
| Attendance.DeleteKeepsValid | backend/routes/attendance.js:59-65 | deleting keeps ids unique and leaves no record with that id |
| Attendance.MarkIsUpsert | backend/routes/attendance.js:35-48 | with a numeric employee id the mark leaves exactly one record for that employee and date, the last one, carrying the new status, and keeps every other employee's or date's record |
| Attendance.StringIdAppends | backend/routes/attendance.js:36-42 | when the body's id is a string, the `===` removal matches none of the `parseInt`'d stored ids, so the new record is appended to all the old ones |
| Attendance.StringIdDoesNotReplace | backend/routes/attendance.js:36-42 | marking employee 1 again with the string "1" leaves two records for employee 1 on that date |
| Announcements.Create | backend/routes/announcements.js:15-54 | the collection is initialised first; 400 exactly when title or message is empty; otherwise the appended announcement with the next id, type defaulting to "company", a target only for type "individual" (null otherwise) and the creation time |
| Announcements.Locate | backend/routes/announcements.js:62-66 | no position when the collection is missing; otherwise the `findIndex` of the parsed id |
| Announcements.Delete | backend/routes/announcements.js:58-76 | 404 and no change exactly when the collection is missing or the id is unknown; otherwise the list with that announcement spliced out |
| Announcements.TargetOnlyForIndividual | backend/routes/announcements.js:34 | a stored announcement with a target is always of type "individual" |
| Announcements.CreateKeepsValid | backend/routes/announcements.js:29-38 | creation keeps ids unique, and the new announcement is found by its id at the end of the list |
| Announcements.DeleteKeepsValid | backend/routes/announcements.js:66-72 | deletion keeps ids unique and leaves no announcement with that id |
| Http.OrEmpty | backend/routes/issues.js:7-9 | a collection the document lacks reads as the empty list, and an existing one is kept (also `data.announcements` and `data.workHours \|\| []`) |
| Http.ListAll | backend/routes/issues.js:5-11 | listing a collection created on first use stores it, empty if it was missing, and answers all of it (also `GET /api/announcements`) |
| Issues.ListByEmployee | backend/routes/issues.js:14-21 | the collection is initialised; the answer holds exactly the issues whose `employeeId` is `===` the parsed path id |
| Issues.Create | backend/routes/issues.js:24-52 | the collection is initialised even when refused; 400 exactly when employee id is falsy or title or description is empty; otherwise the appended issue with the next id, the parsed employee id, priority defaulting to "medium", status "Open" and the creation time |
| Issues.Locate | backend/routes/issues.js:59-67 | no position when the collection is missing; otherwise the `findIndex` of the parsed id |
| Issues.UpdateStatus | backend/routes/issues.js:55-77 | 404 exactly when the collection is missing or the id unknown; otherwise the stored issue with its status replaced by a non-empty status, or unchanged under an empty one |
| Issues.Delete | backend/routes/issues.js:80-98 | 404 and no change exactly when the collection is missing or the id unknown; otherwise the list with that issue spliced out |
| Issues.CreateKeepsValid | backend/routes/issues.js:38-48 | creation keeps ids unique, and the new issue is found by its id at the end of the list |
| Issues.UpdateKeepsValid | backend/routes/issues.js:71-73 | writing the update back keeps ids unique and changes no id, employee id, title or priority |
| Issues.DeleteKeepsValid | backend/routes/issues.js:88-94 | deletion keeps ids unique and leaves no issue with that id |
| Tasks.ResetTask | backend/routes/tasks.js:15-20 | a recurring task completed on a day other than today goes back to "In Progress"; any other task is unchanged |
| Tasks.ResetRecurring | backend/routes/tasks.js:14-22 | the list keeps its length; exactly the tasks that need a reset have their status set to "In Progress", and the rest are untouched |
| Tasks.WithStatus | backend/routes/tasks.js:28-33 | with no status every task; with a status exactly the tasks having it |
| Tasks.Get | backend/routes/tasks.js:37-46 | 404 "Task not found" exactly when no task has the parsed id; otherwise a task with that id |
| Tasks.ListByEmployee | backend/routes/tasks.js:49-53 | exactly the tasks whose `employeeId` is `===` the parsed path id |
| Tasks.Create | backend/routes/tasks.js:56-84 | 400 exactly when employee id is falsy or title or description is empty; otherwise a task with a fresh id above every existing one, the parsed employee id, deadline defaulting to today, status "In Progress", `isRecurring` stored as `isRecurring || false` (the body's value when truthy, `false` otherwise), and no completion or approval |
| Tasks.Update | backend/routes/tasks.js:87-119 | 404 exactly when the id is unknown; action "complete" sets status "Completed" and the completion time, and today as the completion day only for a recurring task; otherwise a non-empty status is written; otherwise the task is unchanged |
| Tasks.Delete | backend/routes/tasks.js:122-136 | 404 and no change exactly when the id is unknown; otherwise the success message |
| Tasks.ResetKeepsValid | backend/routes/tasks.js:14-22 | the reset keeps every id, so ids stay unique |
| Tasks.ResetIdempotent | backend/routes/tasks.js:14-22 | a second listing on the same day resets nothing more |
| Tasks.ResetLeavesNothingStale | backend/routes/tasks.js:14-22 | after the reset no task is a completed recurring task from an earlier day |
| Tasks.CompletedTodayResetsTomorrow | backend/routes/tasks.js:15-20 | a recurring task completed today survives a listing today and is reopened by a listing on any other day |
| Tasks.NonRecurringStaysCompleted | backend/routes/tasks.js:15-20 | a completed task that is not recurring stays "Completed" through every later listing |
| Tasks.OtherActionsAreNoOps | backend/routes/tasks.js:99-115 | an action other than "complete" with no status, such as "approve" or "reject", answers the task unchanged |
| Tasks.CreateThenGet | backend/routes/tasks.js:66-80 | appending a created task keeps ids unique, and a get by its id returns it |
| Tasks.UpdateKeepsValid | backend/routes/tasks.js:99-115 | writing an update back keeps ids unique |
| Tasks.DeleteKeepsValid | backend/routes/tasks.js:126-132 | a delete keeps ids unique, and a get by that key afterwards answers 404 |
| Leave.List | backend/routes/leave.js:6-16 | with no status every request; with a status exactly the requests having it |
| Leave.Get | backend/routes/leave.js:19-28 | 404 "Leave request not found" exactly when no request has the parsed id; otherwise a request with that id |
| Leave.ListByEmployee | backend/routes/leave.js:31-35 | exactly the requests whose `employeeId` is `===` the parsed path id |
| Leave.Create | backend/routes/leave.js:38-65 | 400 "All fields are required" exactly when a field is falsy; 400 on a start after the end exactly when all fields are present; otherwise a pending request with a fresh id, the parsed employee id, the given ordered range, type and reason, and no review time |
| Leave.CeilDiv | backend/routes/leave.js:109 | `Math.ceil(a / b)`: the least q with a ≤ q·b |
| Leave.LeaveDaysIsSpan | backend/routes/leave.js:107-109 | the day count is the inclusive span end − start + 1 |
| Leave.AfterReset | backend/routes/leave.js:99-104 | when `lastBalanceReset \|\| now` lies in another month or year than now, the balance becomes 2 and the reset instant now; otherwise the employee is unchanged |
| Leave.ReviewRequest | backend/routes/leave.js:80-137 | 404 and no change exactly when the id is unknown; a status other than Approved or Rejected answers the request unchanged; 400 "Insufficient leave balance" only for an approval, with the requests unchanged; otherwise the request gets the status and review time; only an approval may change employees, and their number is kept |
| Leave.Delete | backend/routes/leave.js:140-154 | 404 and no change exactly when the id is unknown; otherwise the success message |
| Leave.CreateKeepsValid | backend/routes/leave.js:52-64 | appending a created request keeps ids unique and ranges ordered, and a get by its id returns it |
| Leave.ReviewKeepsValid | backend/routes/leave.js:93-122 | a review keeps the request ids unique and ranges ordered, and the employee ids unique with no negative balance |
| Leave.ReviewTouchesOnlyNamedEmployee | backend/routes/leave.js:95-118 | whatever the review, the only employee that can change is the one the approved request names, found by `===` on its id |
| Leave.ApprovalDeductsSpan | backend/routes/leave.js:95-118 | for an existing employee, approval succeeds exactly when the balance after the monthly reset covers the inclusive span, then leaves that balance minus the span, at least 0, and every other employee as it was; a refusal leaves the requests unchanged and the employees as they were except for that employee's reset |
| Leave.RejectionKeepsBalances | backend/routes/leave.js:93-122 | a rejection changes no employee and records status and review time |
| Leave.NewMonthResetsBalance | backend/routes/leave.js:99-117 | on a new month the approval works from balance 2 and sets the reset instant to now, and the reset stays when the approval is refused |
| Leave.UnknownEmployeeIsApproved | backend/routes/leave.js:96-97 | an approval whose employee id matches no employee succeeds without any balance check and changes no employee |
| Leave.BalanceNeverNegative | backend/routes/leave.js:112-117 | starting from non-negative balances, no review leaves a negative balance |
| Leave.DeleteKeepsValid | backend/routes/leave.js:144-150 | a delete keeps the invariant, and a get by that key afterwards answers 404 |
| Leave.TwoDaysExhaustBalance | backend/routes/leave.js:102-117 | an employee with balance 2 who is approved for two days has 0 left, and a further one-day request that month is refused and stays as it was |
| WorkHours.OpenIndex | backend/routes/workhours.js:33-35 | the first entry of this employee (compared with `===`), dated today and not checked out, or -1 exactly when there is none |
| WorkHours.ListByEmployee | backend/routes/workhours.js:11-15 | exactly the entries whose `employeeId` is `===` the parsed path parameter |
| WorkHours.CheckIn | backend/routes/workhours.js:18-55 | 400 "Employee ID is required" exactly when the id is falsy; the collection is created otherwise; 400 "Already checked in today" exactly when an open entry for today exists; otherwise the appended entry with id length + 1, the raw employee id, today's date, the check-in instant and zero hours |
| WorkHours.Closed | backend/routes/workhours.js:76-87 | the entry gets the check-out instant, the time since check-in as total, and the part beyond eight hours (else 0) as overtime; its other fields are kept |
| WorkHours.OvertimeBounds | backend/routes/workhours.js:84-87 | when the clock has not gone back, overtime lies between 0 and the total, and the total minus overtime is at most eight hours |
| WorkHours.CheckOut | backend/routes/workhours.js:58-92 | 400 exactly when the id is falsy; a server error exactly when the collection was never created; 400 "No check-in found for today" exactly when no open entry for today exists; otherwise that entry is closed in place |
| WorkHours.WeekEntries | backend/routes/workhours.js:103-107 | exactly the employee's entries dated within the seven days up to now |
| WorkHours.Weekly | backend/routes/workhours.js:95-117 | the week's entries with the sums of their totals and of their overtime |
| WorkHours.WeeklyOvertimeBounded | backend/routes/workhours.js:109-110 | when every entry's overtime lies between 0 and its total, so does the weekly overtime against the weekly total |
| WorkHours.CheckInKeepsValid | backend/routes/workhours.js:33-51 | a check-in keeps ids equal to positions plus one and at most one open entry per employee and day |
| WorkHours.CheckOutKeepsValid | backend/routes/workhours.js:68-76 | a check-out keeps the same invariant |
| WorkHours.CheckOutThenCheckIn | backend/routes/workhours.js:33-76 | after a check-out the same employee can check in again the same day |
| WorkHours.CheckInTwiceRefused | backend/routes/workhours.js:33-39 | a second check-in on the same day without a check-out is refused with "Already checked in today" |
| Auth.ProfileOf | backend/routes/auth.js:27 | the profile carries every field of the user except the password |
| Auth.ProfileHidesPassword | backend/routes/auth.js:27 | two users have the same profile exactly when they differ at most in the password, so the profile says nothing about it |
| Auth.SeedUsers | backend/routes/auth.js:5-10 | the four starting accounts have ids 1 to 4 in order and distinct usernames |
| Auth.CredentialIndex | backend/routes/auth.js:20 | the first account with exactly that username and password, or -1 exactly when there is none |
| Auth.Login | backend/routes/auth.js:13-32 | 400 exactly when username or password is empty; success exactly when some account has both, answering that account's profile; otherwise 401 "Invalid credentials" |
| Auth.Validate | backend/routes/auth.js:35-46 | 401 "Invalid session" exactly when no account's id is `===` the unparsed `userId`; otherwise that account's profile |
| Auth.Users | backend/routes/auth.js:49-52 | one profile per account, in order |
| Auth.Registration | backend/routes/auth.js:55-83 | 400 exactly when a field is empty, or when the username is taken, with the list unchanged; otherwise one account appended with id length + 1, the given fields and `employeeId \|\| null`, answering its profile |
| Auth.RegisterKeepsValid | backend/routes/auth.js:63-76 | registration keeps ids equal to positions plus one and usernames unique |
| Auth.RegisterThenLogin | backend/routes/auth.js:67-76 | after a registration the same credentials log in as the new account, and its id validates |
| Auth.UserDirectory.constructor | backend/routes/auth.js:5-10 | the directory starts with the four seeded accounts |
| Auth.UserDirectory.Register | backend/routes/auth.js:55-83 | the push onto the module-level list: the answer and the new list are those of the registration, and the invariant is kept |
| Server.SeedEmployees | backend/server.js:20-24 | three employees with ids 1 to 3, balance 2 and reset time now; ids unique, balances non-negative |
| Server.Store.constructor | backend/server.js:19-31 | the seed document: the three employees and every other collection empty, with the document invariant holding |
| Server.Store.ListEmployees | backend/routes/employees.js:5-8 | answers the stored employee list |
| Server.Store.GetEmployee | backend/routes/employees.js:11-20 | answers as `Employees.Get` on the stored list |
| Server.Store.CreateEmployee | backend/routes/employees.js:23-46 | answers as `Employees.Create`; the employee is pushed only on success; the invariant is kept |
| Server.Store.UpdateEmployee | backend/routes/employees.js:49-70 | answers as `Employees.Update`, and the merged record replaces the one found, in place |
| Server.Store.DeleteEmployee | backend/routes/employees.js:73-87 | answers and splices as `Employees.Delete`; the invariant is kept |
| Server.Store.ListAttendance | backend/routes/attendance.js:5-15 | answers as `Attendance.List` |
| Server.Store.ListAttendanceByEmployee | backend/routes/attendance.js:18-22 | answers as `Attendance.ListByEmployee` |
| Server.Store.MarkAttendance | backend/routes/attendance.js:25-52 | the reassigned filtered list plus the pushed record are those of `Attendance.Mark`; ids stay unique |
| Server.Store.DeleteAttendance | backend/routes/attendance.js:55-69 | answers and splices as `Attendance.Delete`; ids stay unique |
| Server.Store.ListTasks | backend/routes/tasks.js:5-34 | the `forEach` loop leaves the tasks as `Tasks.ResetRecurring` of the old ones, and the answer is the status filter of the new list; ids stay unique |
| Server.Store.GetTask | backend/routes/tasks.js:37-46 | answers as `Tasks.Get` |
| Server.Store.ListTasksByEmployee | backend/routes/tasks.js:49-53 | answers as `Tasks.ListByEmployee` |
| Server.Store.CreateTask | backend/routes/tasks.js:56-84 | answers as `Tasks.Create`; the task is pushed only on success |
| Server.Store.UpdateTask | backend/routes/tasks.js:87-119 | answers as `Tasks.Update`, and the task found is replaced in place |
| Server.Store.DeleteTask | backend/routes/tasks.js:122-136 | answers and splices as `Tasks.Delete` |
| Server.Store.ListLeave | backend/routes/leave.js:6-16 | answers as `Leave.List` |
| Server.Store.GetLeave | backend/routes/leave.js:19-28 | answers as `Leave.Get` |
| Server.Store.ListLeaveByEmployee | backend/routes/leave.js:31-35 | answers as `Leave.ListByEmployee` |
| Server.Store.CreateLeave | backend/routes/leave.js:38-77 | answers as `Leave.Create`; the request is pushed only on success |
| Server.Store.ReviewLeave | backend/routes/leave.js:80-137 | both the requests and the employees become those of `Leave.ReviewRequest`, including the balance reset kept on a refused approval; both invariants are kept |
| Server.Store.DeleteLeave | backend/routes/leave.js:140-154 | answers and splices as `Leave.Delete` |
| Server.Store.ListIssues | backend/routes/issues.js:5-11 | initialises the collection and answers all of it, as `Http.ListAll` says |
| Server.Store.ListIssuesByEmployee | backend/routes/issues.js:14-21 | initialises the collection and answers as `Issues.ListByEmployee` |
| Server.Store.CreateIssue | backend/routes/issues.js:24-52 | the collection and the answer are those of `Issues.Create` |
| Server.Store.UpdateIssue | backend/routes/issues.js:55-77 | answers as `Issues.UpdateStatus`, and the issue found is replaced in place |
| Server.Store.DeleteIssue | backend/routes/issues.js:80-98 | answers and splices as `Issues.Delete` |
| Server.Store.ListAnnouncements | backend/routes/announcements.js:6-12 | initialises the collection and answers all of it, as `Http.ListAll` says |
| Server.Store.CreateAnnouncement | backend/routes/announcements.js:15-55 | the collection and the answer are those of `Announcements.Create` |
| Server.Store.DeleteAnnouncement | backend/routes/announcements.js:58-76 | answers and splices as `Announcements.Delete` |
| Server.Store.ListWorkHours | backend/routes/workhours.js:5-8 | answers `data.workHours \|\| []` as `Http.OrEmpty` says |
| Server.Store.ListWorkHoursByEmployee | backend/routes/workhours.js:11-15 | answers as `WorkHours.ListByEmployee` |
| Server.Store.CheckIn | backend/routes/workhours.js:18-55 | the collection and the answer are those of `WorkHours.CheckIn`; the invariant is kept |
| Server.Store.CheckOut | backend/routes/workhours.js:58-92 | the entry is closed in place as `WorkHours.CheckOut` says; the invariant is kept |
| Server.Store.WeeklySummary | backend/routes/workhours.js:95-117 | answers as `WorkHours.Weekly` |
| Email.Parts | backend/services/emailService.js:43-47 | an unset or empty variable contributes no part; a set one contributes its comma-separated pieces |
| Email.Dedupe | backend/services/emailService.js:50 | `[...new Set(emails)]`: the same strings, each once |
| Email.DedupeKeepsPrefix | backend/services/emailService.js:50 | a `Set` keeps first-insertion order: deduplicating a longer list keeps the deduplicated prefix in front |
| Email.TrimAll | backend/services/emailService.js:50 | `.map(email => email.trim())`: one trimmed string per input, in order |
| Email.DepartmentEmails | backend/services/emailService.js:38-51 | every listed address holds an '@' and has no surrounding white space |
| Email.DepartmentEmailsAreTheUsableParts | backend/services/emailService.js:38-51 | an address is listed exactly when some part of HR_EMAIL or DEPARTMENT_HEAD_EMAIL is non-empty, holds an '@' once trimmed, and trims to it |
| Email.DepartmentIgnored | backend/services/emailService.js:38 | the department argument makes no difference to the list |
| Email.HrAddressesFirst | backend/services/emailService.js:42-47 | the HR addresses come first: the list from HR_EMAIL alone is a prefix of the list from both variables |
| Email.DedupeBeforeTrim | backend/services/emailService.js:50 | duplicates are removed before trimming, so an address written once with a leading space and once without is listed twice |
| Email.Gate | backend/services/emailService.js:54-70 | a disabled service answers "Email service not configured"; an empty recipient list "No recipients configured"; success exactly when enabled, with recipients, and the API call returns, carrying its id; a failure carries the thrown error |
| Email.EmailService.constructor | backend/services/emailService.js:5-9 | the constructor runs the initialisation: enabled exactly when the API key is set and is not the placeholder |
| Email.EmailService.InitEmailService | backend/services/emailService.js:11-36 | answers and sets `isEnabled` to whether the API key is set and is not the placeholder |
| Email.EmailService.IssueNotification | backend/services/emailService.js:53-70 | the issue notice passes the gates with the department list |
| Email.EmailService.AnnouncementNotification | backend/services/emailService.js:231-252 | skipped when disabled; an individual announcement with a found target goes through the gates with that one address, so an enabled service answers "No recipients configured" when the address is empty; an announcement of any other type, or with no target found, goes through the gates with the department list |
| Email.EmailService.LeaveNotification | backend/services/emailService.js:365-382 | skipped when disabled; an enabled service with an empty "HR" list answers "No recipients configured"; success exactly when enabled, the list is non-empty and the API call returns, carrying its id; a failure carries the thrown error |
| Email.DisabledNeverSends | backend/services/emailService.js:54-57 | for every argument, each of the issue, announcement and leave notices of a disabled service answers "Email service not configured", whatever the API would answer |
| Email.NoAddressesNoRecipients | backend/services/emailService.js:42-50 | with neither address variable set the list is empty and an enabled service answers "No recipients configured" |
| Calendar.DayOf | backend/routes/tasks.js:11 | `toISOString().split('T')[0]`: the day whose midnight-to-midnight span holds the instant |
| Calendar.Weekday | frontend/src/components/HRDashboard.js:132 | `getDay()` lies in 0..6 |
| Calendar.WeekdayNext | frontend/src/components/TemplateDashboard.js:170-174 | the next day's weekday is one further, modulo 7 |
| Calendar.WeekdayAdvance | frontend/src/components/TemplateDashboard.js:170-174 | k days later the weekday is k further, modulo 7 |
| Calendar.SundayOnOrBefore | frontend/src/components/TemplateDashboard.js:164-165 | stepping back by a day's own `getDay()` lands on a Sunday |
| Calendar.DaysInMonth | frontend/src/components/HRDashboard.js:130-131 | a Gregorian month has between 28 and 31 days |
| Calendar.CivilFromDays | backend/routes/leave.js:99-101 | the calendar date of a day number names a month 1..12 and a day within that month's length |
| Calendar.RoundTrip | backend/routes/leave.js:99-101 | converting a day number to its calendar date and back gives the same day |
| Calendar.YearMonthOf | backend/routes/leave.js:101 | `getFullYear()` and `getMonth()` of an instant are those of its calendar day, the month in 1..12 |
| Calendar.DaysInJsMonth | frontend/src/components/HRDashboard.js:130-131 | `new Date(year, month + 1, 0).getDate()` lies between 28 and 31 |
| Calendar.ShiftedYearLength | frontend/src/components/HRDashboard.js:130-131 | the year from one March 1 to the next has 366 days exactly when its February is a leap February |
| Calendar.NextMonthStart | frontend/src/components/HRDashboard.js:130-131 | the first of the next month is the month's length after the first of this one, so day 0 of the next month is this month's last day |
| HrDashboard.StartColumn | frontend/src/components/HRDashboard.js:129-132 | the column of the 1st lies in 0..6 |
| HrDashboard.CalendarDays | frontend/src/components/HRDashboard.js:126-144 | the two loops build `startingDayOfWeek` empty cells followed by the days 1..daysInMonth, in order, and nothing else |
| HrDashboard.DayColumnIsWeekday | frontend/src/components/HRDashboard.js:132-142 | in the grid, day d sits in the column of its weekday, Sundays in column 0 |
| HrDashboard.AddHoliday | frontend/src/components/HRDashboard.js:192-200 | the holiday is appended exactly when it has a date and a name that is not blank once trimmed; otherwise the list is unchanged |
| HrDashboard.RemoveHoliday | frontend/src/components/HRDashboard.js:202-208 | exactly the entries that differ in date or name are kept |
| HrDashboard.RemoveKeepsOrder | frontend/src/components/HRDashboard.js:202-208 | the filter keeps the other entries in their order: removing from a concatenation removes from each part, and a single entry is dropped exactly when both its date and name match |
| HrDashboard.RemoveUndoesAdd | frontend/src/components/HRDashboard.js:192-208 | removing what was just added gives the same list as removing it before the addition, and removing an absent holiday changes nothing |
| HrDashboard.DisjointCountsBounded | frontend/src/components/HRDashboard.js:223-225 | three mutually exclusive tests count at most the whole list between them |
| HrDashboard.RoundedPercent | frontend/src/components/HRDashboard.js:226 | `Math.round(part / whole * 100)`: the nearest integer to the percentage, halves up, at most 100, 0 for an empty month |
| HrDashboard.MonthRecords | frontend/src/components/HRDashboard.js:216-220 | exactly the employee's records dated between "month-01" and "month-31" as strings |
| HrDashboard.CountStatus | frontend/src/components/HRDashboard.js:223-225 | a status count is at most the number of records |
| HrDashboard.AttendanceCountsBounded | frontend/src/components/HRDashboard.js:223-225 | the counts of three different statuses add up to at most the number of records |
| HrDashboard.StatusCountIsOnePass | frontend/src/components/HRDashboard.js:223-225 | counting a status among the employee's month records equals counting, over all records, those of the employee in the month with that status |
| HrDashboard.EmployeeAttendance | frontend/src/components/HRDashboard.js:215-235 | the line for an employee counts the month's records; present, WFH and absent days are each the number of the employee's records in the month with that status, and together at most the total; the rate is the half-up rounded percentage of present plus WFH days over the total, at most 100 and 0 for no records |
| HrDashboard.MonthlyAttendanceSummary | frontend/src/components/HRDashboard.js:211-237 | one line per employee, in employee order |
| HrDashboard.OnlyTheirMonthCounts | frontend/src/components/HRDashboard.js:216-222 | a further record changes an employee's day total by one exactly when it is theirs and dated in the month |
| HrDashboard.OverlapIsIntersection | frontend/src/components/HRDashboard.js:248-250 | for ordered ranges the three-way test is exactly "the request and the month window intersect" |
| HrDashboard.MonthLeaves | frontend/src/components/HRDashboard.js:244-251 | exactly the employee's requests that start in, end in, or span the window |
| HrDashboard.CountLeaveStatus | frontend/src/components/HRDashboard.js:253-255 | a status count is at most the number of requests |
| HrDashboard.LeaveCountsBounded | frontend/src/components/HRDashboard.js:253-255 | the counts of three different statuses add up to at most the number of requests |
| HrDashboard.LeaveStatusCountIsOnePass | frontend/src/components/HRDashboard.js:253-255 | counting a status among the employee's requests touching the month equals counting, over all requests, those of the employee touching the month with that status |
| HrDashboard.EmployeeLeave | frontend/src/components/HRDashboard.js:243-271 | the line counts the employee's requests touching the month; approved, pending and rejected are each the number of the employee's requests touching the month with that status, and together at most the total |
| HrDashboard.MonthlyLeaveSummary | frontend/src/components/HRDashboard.js:239-273 | one line per employee, in employee order |
| Text.TrimStart | backend/services/emailService.js:50 | the result is a suffix of the input, everything dropped is white space, and it does not start with white space |
| Text.TrimEnd | backend/services/emailService.js:50 | the result is a prefix of the input, everything dropped is white space, and it does not end with white space |
| Text.TrimIsTrimmed | backend/services/emailService.js:50 | `trim()` leaves no white space at either end, and gives "" exactly when the string is all white space |
| Text.TrimIdempotent | frontend/src/components/HRDashboard.js:193 | trimming twice is trimming once |
| Text.TrimmedIsFixed | frontend/src/components/HRDashboard.js:193 | a string with no white space at either end is its own trim |
| Text.Split | backend/services/emailService.js:43 | `split(',')` answers at least one piece, and no piece holds the separator |
| Text.JoinSplit | backend/services/emailService.js:43 | joining the pieces of a split with the separator gives back the string |
| Text.SplitNoSep | backend/services/emailService.js:47 | a string without the separator splits into itself alone |
| Text.SplitAfterPiece | backend/services/emailService.js:47 | splitting `x,y` with no separator in `x` gives `x` and then the pieces of `y` |
| Text.SplitJoin | backend/services/emailService.js:43 | splitting a join of separator-free pieces gives back the pieces |
| Text.LexLessIrreflexive | frontend/src/components/HRDashboard.js:218-219 | no string is below itself in the lexicographic order on characters |
| Text.LexLessTotal | frontend/src/components/HRDashboard.js:218-219 | of two different strings one is below the other |
| Text.LexLessTransitive | frontend/src/components/HRDashboard.js:218-219 | the lexicographic order on characters is transitive |
| Text.LexLessAsymmetric | frontend/src/components/HRDashboard.js:218-219 | if `a < b` then not `b < a` |
| Text.LexLeqTotalOrder | frontend/src/components/Issues.js:71 | the `<=` on strings is total, antisymmetric and transitive |
| Js.Or | backend/routes/employees.js:63-65 | `x \|\| fallback` is `x` when `x` is truthy and `fallback` otherwise |
| Js.DigitValue | backend/routes/employees.js:13 | a digit's value is below 16, and below 10 for a decimal digit |
| Js.DigitPrefix | backend/routes/employees.js:13 | the longest prefix made only of digits of the radix: the next character, if any, is not one |
| Js.ParseIntString | backend/routes/attendance.js:42 | `parseInt` on a string is always a number or NaN |
| Js.ParseInt | backend/routes/attendance.js:42 | `parseInt` is a number or NaN, and gives an integer back unchanged (JavaScript does so below 10^21 in magnitude; see Left out) |
| Js.ParseIntOfDecimal | backend/routes/employees.js:13 | `parseInt` of a string of decimal digits is the number the digits denote |
| Js.RoundHalfUp | frontend/src/components/HRDashboard.js:226 | the nearest integer to `n / d`, halves rounded up |
| Js.RoundHalfUpAtMost | frontend/src/components/TemplateDashboard.js:91 | a ratio of at most `k` never rounds above `k` |
| Seqs.Filter | backend/routes/attendance.js:10 | `filter` keeps exactly the elements that pass, and no more elements than it was given |
| Seqs.FilterAppend | backend/routes/tasks.js:29 | filtering a concatenation filters each part |
| Seqs.FilterAll | backend/routes/attendance.js:36-38 | a filter every element passes changes nothing |
| Seqs.FilterNone | backend/routes/attendance.js:36-38 | a filter no element passes answers the empty list |
| Seqs.FilterTwice | frontend/src/components/HRDashboard.js:223-225 | filtering by one test and then another equals filtering once by both, as the summaries' nested `filter` calls rely on |
| Seqs.Count | frontend/src/components/HRDashboard.js:223-225 | a count of matches is at most the length |
| Seqs.FindIndex | backend/routes/employees.js:53 | `findIndex` is the first position that passes, or -1 exactly when none does |
| Seqs.RemoveAt | backend/routes/employees.js:83 | `splice(i, 1)` shifts the later elements down one and removes exactly that one element |
| Seqs.Max | backend/routes/employees.js:34 | `Math.max` of a non-empty list is one of its elements and no element exceeds it |
| Seqs.NextId | backend/routes/employees.js:34 | the new id is above every existing id, 1 for an empty list, and one more than an existing id otherwise |
| Seqs.AppendNextKeepsUnique | backend/routes/issues.js:39 | a record appended under the next id keeps ids unique |
| Seqs.RemoveKeepsUnique | backend/routes/tasks.js:132 | removing a record keeps ids unique |
| Seqs.FilterKeepsUnique | backend/routes/attendance.js:36-38 | filtering keeps ids unique |
| Seqs.UpdateKeepsUnique | backend/routes/employees.js:61-66 | replacing a record by one with its id keeps ids unique |
| Seqs.SumMonotone | backend/routes/workhours.js:109-110 | sums of pointwise-ordered lists are ordered |
| Seqs.SumNonNegative | backend/routes/workhours.js:109-110 | a sum of non-negative amounts is non-negative |
| IssuesView.Visible | frontend/src/components/Issues.js:43-52 | HR (by department or role) sees `issues \|\| []` whole; anyone else sees the sub-list of issues that pass the department-or-own test |
| IssuesView.NonHrSeesDepartmentAndOwn | frontend/src/components/Issues.js:46-52 | outside HR an issue is listed exactly when it is assigned to the user's department or was created by the user; the head clause adds nothing |
| IssuesView.ApplyFilter | frontend/src/components/Issues.js:55-61 | "all" keeps the list, "my-issues" keeps the user's own issues, any other value keeps the issues with that status |
| IssuesView.FilterNarrows | frontend/src/components/Issues.js:55-61 | the filter answers only issues it was given, all owned by the user under "my-issues" and all of the chosen status under a status filter |
| IssuesView.Rank | frontend/src/components/Issues.js:68 | high ranks 3, medium 2, low 1, and every rank lies in 0..3 |
| IssuesView.SortKeyOf | frontend/src/components/Issues.js:64-74 | a `sortBy` other than createdAt, priority and status selects the comparator that answers 0 |
| IssuesView.LeIsTotalPreorder | frontend/src/components/Issues.js:64-74 | each of the comparators (newest first, highest priority first, status ascending, none) is total and transitive |
| IssuesView.Insert | frontend/src/components/Issues.js:64 | inserting into a sorted list keeps it sorted and adds exactly that issue |
| IssuesView.Sort | frontend/src/components/Issues.js:64-74 | the sort answers a sorted permutation of its input |
| IssuesView.InsertStable | frontend/src/components/Issues.js:64 | inserting into a sorted list places the new issue after every issue it ties with, leaving their order as it was |
| IssuesView.SortStable | frontend/src/components/Issues.js:64-74 | the sort is stable for every key: the issues that tie with any given issue appear in the result in the order they had in the input |
| IssuesView.UnsortedKeepsOrder | frontend/src/components/Issues.js:73 | when every comparison is 0 the stable sort keeps the list as it was |
| IssuesView.FilteredIssues | frontend/src/components/Issues.js:42-75 | `getFilteredIssues` is ordered by the chosen key and is a permutation of the visible issues that pass the filter |
| IssuesView.FilteredIssuesAreVisible | frontend/src/components/Issues.js:42-75 | an issue is listed exactly when it is visible and passes the filter; listed issues come from the input and, outside HR, belong to the user's department or to the user |
| IssuesView.ManageableIsVisible | frontend/src/components/Issues.js:160-165 | every issue `canManageIssue` allows is one the user can see |
| IssuesView.HeadManagesOwnDepartment | frontend/src/components/Issues.js:160-165 | a head outside HR may manage another person's issue exactly when it is assigned to the head's department |
| TemplateDashboard.GridStart | frontend/src/components/TemplateDashboard.js:162-165 | the grid starts on the Sunday on or before the 1st of the month, less than a week before it |
| TemplateDashboard.CalendarDays | frontend/src/components/TemplateDashboard.js:159-177 | `getCalendarDays` answers whole weeks of consecutive days from the grid's Sunday, covering every day of the month and ending on the Saturday of the week that holds the month's last day (so February 2026, starting on a Sunday, gets exactly 28 days), at most 42 |
| TemplateDashboard.InTemplateIffSomeMember | frontend/src/components/TemplateDashboard.js:74-77 | with unique ids, the `find` test holds exactly when some employee of department "template" has that id |
| TemplateDashboard.DepartmentEmployees | frontend/src/components/TemplateDashboard.js:73 | an employee is listed exactly when it is one of the employees and belongs to "template" |
| TemplateDashboard.DepartmentItems | frontend/src/components/TemplateDashboard.js:74-82 | a task or leave request is listed exactly when the first employee with its employee id belongs to "template" |
| TemplateDashboard.DepartmentIssues | frontend/src/components/TemplateDashboard.js:78 | the department's issues are no more than all the issues |
| TemplateDashboard.DepartmentIssuesMembership | frontend/src/components/TemplateDashboard.js:78 | an issue is listed exactly when it is assigned to or filed under "template" |
| TemplateDashboard.TodayAttendance | frontend/src/components/TemplateDashboard.js:85-88 | a record is listed exactly when it is a department employee's record for the selected date |
| TemplateDashboard.PresentCount | frontend/src/components/TemplateDashboard.js:89 | the present count is at most the number of today's records |
| TemplateDashboard.PresentCountIsOnePass | frontend/src/components/TemplateDashboard.js:85-89 | filtering today's records and then Present/WFH counts the same as one test for both |
| TemplateDashboard.RateTenths | frontend/src/components/TemplateDashboard.js:91 | the percentage in tenths, rounded to nearest, 0 with no employees and at most 100.0 when the part is at most the whole |
| TemplateDashboard.AttendanceRate | frontend/src/components/TemplateDashboard.js:90-91 | the attendance rate is 0 without department employees and otherwise present/total as a percentage rounded to a tenth |
| Routing.DepartmentScreen | frontend/src/App.js:150-272 | the department switch never answers the login form |
| Routing.DashboardFor | frontend/src/App.js:118-146 | the login form shows exactly when nobody is logged in, and role "hr" always gets the HR dashboard |
| Routing.DepartmentDashboards | frontend/src/App.js:149-250 | each department dashboard goes exactly to the non-HR heads and managers of that department; the HR dashboard to role "hr" and to heads and managers of department "hr" |
| Routing.EmployeeDashboardIsTheDefault | frontend/src/App.js:251-297 | a logged-in user gets the employee dashboard exactly when they are not HR and are not a head or manager of one of the five departments |
| Legacy.SampleEmployees | script.js:37-45 | with no stored employees the page installs three sample employees with distinct ids |
| Legacy.AddEmployeeTo | script.js:109-128 | a blank trimmed name, email or position changes nothing; otherwise the trimmed employee is appended under the next id |
| Legacy.WithoutId | script.js:137-144 | deleting by id keeps exactly the entries with a different id |
| Legacy.WithoutIdKeepsUnique | script.js:139 | deleting keeps ids unique |
| Legacy.DeleteKeepsOrder | script.js:293 | deleting from a concatenation deletes from each part, and an id nobody has changes nothing |
| Legacy.OtherSlots | script.js:209 | the first step of marking keeps exactly the records of other employees or other dates |
| Legacy.MarkAttendanceIn | script.js:207-220 | marking attendance appends the new record after the records of other slots |
| Legacy.MarkLeavesOneRecord | script.js:207-220 | after marking, the employee and date have exactly one record, the new one with the new status |
| Legacy.AddTaskTo | script.js:224-249 | a falsy parsed employee id or an empty title, description or deadline changes nothing; otherwise an In Progress task is appended under the next id |
| Legacy.Act | script.js:258-289 | mark complete sets Waiting Approval and `completedAt`, approve sets Completed and `approvedAt`, reject sets In Progress and clears `completedAt`; nothing else changes |
| Legacy.ActOnTask | script.js:258-289 | the first task with the id gets the button's update, every other task stays as it was, and an unknown id changes nothing |
| Legacy.ActOnTaskTouchesOne | script.js:259 | with unique ids only the task with that id changes, ids stay unique, and an unknown id changes nothing |
| Legacy.RejectUndoesMarkComplete | script.js:258-289 | rejecting an In Progress task just marked complete gives back the task list as it was |
| Legacy.ApproveAfterMarkComplete | script.js:258-278 | mark complete then approve leaves the task Completed with both instants recorded |
| Legacy.RequestLeaveIn | script.js:361-393 | a falsy employee id, a missing date, a blank reason or a start after the end changes nothing; otherwise a Pending request is appended under the next id |
| Legacy.ReviewLeave | script.js:402-420 | the first request with the id gets the decision and the review instant, whatever its status; the others are unchanged |
| Legacy.RequestLeaveKeepsWellFormed | script.js:361-393 | a new request keeps ids unique and every range non-empty, and the new request is Pending |
| Legacy.ReviewLeaveKeepsWellFormed | script.js:402-420 | reviewing keeps ids unique and every range non-empty |
| Legacy.App.constructor | script.js:26-46 | the page starts with the sample employees and empty lists, ids unique |
| Legacy.App.AddEmployee | script.js:109-135 | `addEmployee` changes the employee list as AddEmployeeTo says and keeps ids unique |
| Legacy.App.DeleteEmployee | script.js:137-144 | `deleteEmployee` (once confirmed) leaves the employees without that id and keeps the invariant |
| Legacy.App.MarkAttendance | script.js:207-222 | `markAttendance` replaces the slot's records by the new one |
| Legacy.App.AddTask | script.js:224-256 | `addTask` changes the task list as AddTaskTo says and keeps ids unique |
| Legacy.App.ActOn | script.js:258-289 | the shared find-then-update of the approval buttons keeps ids unique |
| Legacy.App.MarkTaskComplete | script.js:258-267 | `markTaskComplete` applies the mark-complete update to the task with that id |
| Legacy.App.ApproveTask | script.js:269-278 | `approveTask` applies the approve update to the task with that id |
| Legacy.App.RejectTask | script.js:280-289 | `rejectTask` applies the reject update to the task with that id |
| Legacy.App.DeleteTask | script.js:291-298 | `deleteTask` (once confirmed) leaves the tasks without that id |
| Legacy.App.RequestLeave | script.js:361-400 | `requestLeave` changes the requests as RequestLeaveIn says and keeps them well formed |
| Legacy.App.ApproveLeave | script.js:402-410 | `approveLeave` marks the first request with that id Approved |
| Legacy.App.RejectLeave | script.js:412-420 | `rejectLeave` marks the first request with that id Rejected |
| Legacy.App.DeleteLeave | script.js:422-428 | `deleteLeave` (once confirmed) leaves the requests without that id, still well formed |

## Left out

- Persistence. The server's load and save through the file system, the `tasksUpdated` flag (it only decides whether to save), and the page's `localStorage` are not modelled. Each model starts from the seed document or the sample employees.
- String order. JavaScript compares strings by UTF-16 code units; `Text.LexLess` compares Dafny characters, which are Unicode scalar values. The two orders differ only when a character above U+FFFF (a surrogate pair in UTF-16, starting with a unit in U+D800..U+DBFF) is compared with one in U+E000..U+FFFF. Dates, statuses and names in this system are not expected to hold such characters.
- The Express wiring, middleware and JSON serialisation. A route is a function from the document and the request fields to the new document and an outcome.
- Sending email. The HTTP calls to the mail API, the HTML bodies, reading the environment and `sendTestEmail` are left out. Environment values are parameters, and the model stops at the recipient list and the two gates.
- The notification calls the routes make, and their `try`/`catch`: after posting an announcement, after filing a leave request, and after approving or rejecting one. In the source they never change the stored data or the answer. The issue routes make no notification call.
- Concurrency and `async`. The model runs each handler to completion, one at a time. Every route assigns its id and stores the new record before its first `await`, so ids are not affected. The review route is: it answers `data.leaveRequests[leaveIndex]` after awaiting the email call, so a delete that runs during that wait shifts the index, and the answer can be another request or nothing. `Leave.ReviewRequest` answers the reviewed request itself.
- Local time zones. `toISOString`, `getMonth`, `getFullYear`, `getDay` and `new Date(year, month, day)` are taken in UTC.
- Date strings. Dates are day numbers, and date strings are not parsed. The one place where the code compares date strings as text, the HR dashboard's monthly window, keeps string comparison.
- Input domain. `Js.Val` numbers are integers (`Num(n: int)`), so a fractional JSON number such as `employeeId: 1.5` is not modelled: `parseInt` would read it as 1 while `===` compares the stored raw value. Body fields the model types as `string` (with "" for an absent field), such as `title` or `priority`, cannot hold a non-string JSON value such as `5` or `true`, which the routes store as sent.
- Js.ParseInt: gives every `Num` back unchanged. JavaScript first converts the number to a string, which for a magnitude of 10^21 or more is in exponent form, so `parseInt(1e21)` is 1; reproducing it needs JavaScript's shortest round-trip printing of doubles, which is not modelled. `Js.Val` also has no objects or arrays, so a body such as `employeeId: {}` (truthy, and NaN once parsed) cannot be expressed.
- Floating point. Hours are integer milliseconds, and the dashboards' percentages use exact integer arithmetic with half-up rounding.
- WorkHours.CheckOut: the `toFixed(2)` rounding of total and overtime hours is not modelled; the values are exact milliseconds.
- HrDashboard.EmployeeLeave: the summary line's `totalLeaveDays` is not computed. It only feeds a displayed number. The total and the three status counts are stated exactly.
- IssuesView.Rank: an unknown priority ranks 0. In the source it gives `undefined`, and the subtraction gives NaN, which `sort` treats like 0. Ranking 0 is the same only when both priorities are unknown.
- IssuesView.Sort: `localeCompare` is modelled as lexicographic order on Unicode scalar values, and `Array.prototype.sort` as a stable insertion sort on a sequence. The in-place reordering of the client's array is not captured.
- React rendering, component state, styling, the dark-mode, photo and stats entries in `localStorage`, and the axios calls. The dashboards are modelled as functions of the lists they are passed.
- The DOM-only functions of the stand-alone page (`update*Table`, `showTab`, `updateUserInterface`), and `alert`, `prompt` and `confirm`. A delete is modelled as confirmed, so a cancelled dialog is the call not made.
- The other client components (employee, operations and clean HR dashboards; the tasks, leave, employees, attendance and login forms) and the client config. They only make HTTP calls and render.
- Js.ParseIntString: the result is exact. The loss of precision above 2^53 when JavaScript stores a long digit string as a double is not modelled.
