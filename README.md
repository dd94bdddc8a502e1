# Family Hub chat, notifications and calendar, modelled in Dafny

Family Hub is a Rails application in which the members of one family chat, get notified and keep a
shared calendar. This project models its core in Dafny and proves what that core promises:

- **Accounts.** Users are created, normalised, validated and authenticated. Access requests are filed,
  then approved into users or denied. The `can_manage?` rule decides who may manage a record.
- **Chats.** These are direct, group and public chats with their memberships and unread cursors.
  Messages carry attachments, replies, soft deletion and edits. Reactions toggle, and read receipts are
  kept. The chats, messages and reactions controllers guard every action, and the chat channel handles
  typing, read marks and sidebar previews.
- **Notifications.** The thread-reply service creates a notification when someone replies to a
  message. The mention service extracts `@Name` mentions, notifies the members named, and renders the
  highlight markup. The notifications and mention-suggestion endpoints are modelled too.
- **Browser state machines.** Each of the following Stimulus controllers becomes a class whose fields
  are the controller's state:
  - the conversation view: typing indicator, typing sender, reply box and the Enter key;
  - the chat list sidebar: previews, badges, typing and the active chat;
  - the mention picker;
  - the notification bell;
  - the attachment picker;
  - the image lightbox;
  - the light/dark/system colour-mode switch.
- **Themes.** Colour structure validation, CSS variable generation and the single default theme.
- **Calendar.** Events with their validations and visibility. Occurrences of recurring events. The
  listing of a month, a week or a day. Answers (RSVPs), reminders and the job that delivers a reminder.

Database tables become classes holding a sequence of rows; every method states the whole new table.
Pure rules become functions, and lemmas prove the properties about them. Times are whole seconds, and
the current time is a parameter. Browser timers are explicit "timer fires" methods.

## Model

| member | source | states |
|---|---|---|
| Users.FullName | app/models/user.rb:74-76 | the full name is the first name, one space, then the last name |
| Users.Initials | app/models/user.rb:79-81 | the upcased first letters of first and last name, at most two characters |
| Users.NormalizeEmail | app/models/user.rb:164-166 | a present e-mail becomes its lowercased, stripped form, which is already lowercase; a blank one is kept |
| Users.NormalizeEmailIdempotent | app/models/user.rb:164-166 | normalising a normalised e-mail changes nothing |
| Users.FindByEmail | app/models/user.rb:149-151 | the user found has the query's downcased, stripped e-mail; none is found only when no user has it |
| Users.FindByNormalizedEmail | app/models/user.rb:149-151 | the lookup gives the same answer for a query and for its normalised form |
| Users.UserErrors | app/models/user.rb:43-57 | no errors means every attribute meets its presence, length, inclusion, uniqueness and password rule |
| Users.Authenticate | app/models/user.rb:154-159 | a user comes back exactly when the e-mail finds an active user with that password, and it is that user |
| Users.UserTable.Create | app/models/user.rb:60-61 | an accepted user is appended under a fresh id, and is admin when the table was empty; a refused one changes nothing and returns the errors |
| Users.UserTable.Activate | app/models/user.rb:119-121 | only that user's status changes, to active |
| Users.UserTable.Deactivate | app/models/user.rb:124-126 | only that user's status changes, to inactive |
| Users.UserTable.Remove | app/models/user.rb:129-131 | only that user's status changes, to removed (soft removal) |
| Users.UserTable.MakeAdmin | app/models/user.rb:134-136 | only that user's role changes, to admin |
| Users.UserTable.MakeMember | app/models/user.rb:139-141 | only that user's role changes, to member |
| Users.AcceptedIsWellFormed | app/models/user.rb:43-57 | a record that passed validation is well formed and its e-mail is new to the table |
| Users.FindById | app/controllers/chats_controller.rb:139 | the user returned has the id; none is returned only when no user has it |
| Users.CreatedUserIsFound | app/models/user.rb:149-151 | a user just created is what the e-mail lookup returns for the e-mail it was created with |
| AccessRequests.RequestErrors | app/models/access_request.rb:19-31 | no errors means valid fields and an e-mail that is neither pending nor registered; either of those adds an e-mail error |
| AccessRequests.AccessRequestTable.Create | app/models/access_request.rb:30-34 | the normalised form is filed as a pending request when valid; otherwise nothing changes and the errors come back |
| AccessRequests.AccessRequestTable.Deny | app/models/access_request.rb:97-105 | only a pending request is denied, with the reviewing admin and the time; anything else is refused unchanged |
| AccessRequests.AcceptedRequest | app/models/access_request.rb:115-119 | an accepted request is well formed and no pending request shares its e-mail |
| AccessRequests.Approve | app/models/access_request.rb:66-94 | a pending request whose user validates yields that user and becomes approved, in one step; otherwise neither table changes |
| Authorization.DecidingOwner | app/controllers/concerns/authorization.rb:42-58 | the owner is the first present of user_id, created_by_id and uploaded_by_id |
| Authorization.CanManage | app/controllers/concerns/authorization.rb:42-58 | nobody without a user, every admin, otherwise exactly the owner |
| Authorization.Refusal | app/controllers/concerns/authorization.rb:17-21 | a refusal never lets the request through, and is 403 exactly for XHR/JSON requests |
| Authorization.RequireAdmin | app/controllers/concerns/authorization.rb:14-22 | passes exactly for admins; a refusal is 403 exactly for XHR/JSON requests |
| Authorization.AuthorizeResource | app/controllers/concerns/authorization.rb:31-39 | passes exactly when the user can manage the record; a refusal is 403 exactly for XHR/JSON requests |
| Chats.ChatErrors | app/models/chat.rb:18-21 | the type must be one of three; group and public chats need a non-blank name; no name longer than 100 |
| Chats.OtherMember | app/models/chat.rb:58-62 | a member other than the viewer, the one with the smallest id; none only when every member is the viewer |
| Chats.DisplayName | app/models/chat.rb:49-55 | a direct chat shows the other member's full name or "Unknown User"; other chats show the name or "Unnamed Chat" |
| Chats.MembersOf | app/models/chat.rb:14 | exactly the users holding a membership of the chat |
| Chats.LastMessage | app/models/chat.rb:98-100 | a newest message of the chat; none only when the chat has no message |
| Chats.ChatTable.Create | app/models/chat.rb:127-129 | a nil type becomes direct; a valid chat is appended under a fresh id, an invalid one changes nothing |
| Chats.ChatTable.Rename | app/controllers/chats_controller.rb:107-119 | a new name is stored only if the chat stays valid, otherwise its errors come back and nothing changes |
| Chats.ChatTable.Delete | app/controllers/chats_controller.rb:122-130 | the chat's row goes and every other row stays in order |
| Chats.FirstDirect | app/models/chat.rb:105-123 | the first direct chat holding both users; none when there is no such chat |
| Chats.FindOrCreateDirect | app/models/chat.rb:105-123 | an existing direct chat of the two is returned untouched; otherwise a new direct chat holding both is created |
| Chats.CreateDirect | app/models/chat.rb:117-121 | a new unnamed direct chat with a fresh id, and both users become its members |
| Chats.NewDirectIsFirst | app/models/chat.rb:105-123 | once the new direct chat exists, the lookup finds it, so a second call creates nothing |
| ChatsController.Chronological | app/controllers/chats_controller.rb:52-70 | exactly the chat's non-deleted messages, oldest first |
| ChatsController.SortedPrefixEarliest | app/controllers/chats_controller.rb:52-70 | in a list sorted oldest first, nothing after a cut is older than anything before it |
| ChatsController.ShownMessages | app/controllers/chats_controller.rb:52-70 | at most 50 visible messages of the chat, oldest first, all of them when fewer, none left out older than one shown |
| ChatsController.Show | app/controllers/chats_controller.rb:52-70 | 404 for a missing chat and a redirect without access; otherwise the viewer's cursor moves to now and the page is listed |
| ChatsController.Create | app/controllers/chats_controller.rb:87-96 | direct with an unknown user is refused with "User not found" and changes nothing; direct with a known user redirects to the first direct chat of the two with nothing written, or else to a new direct chat appended with both users as members and only its memberships added (always the new chat when the user picks themselves); group leaves exactly what group creation promises; any other type is refused with "Invalid chat type" and changes nothing |
| ChatsController.CreateGroup | app/controllers/chats_controller.rb:202-224 | an invalid group is 422 with nothing stored; a valid one is stored with the creator and every selected stored user as members |
| ChatsController.AddSelected | app/controllers/chats_controller.rb:210-216 | every selected stored user joins, the creator stays a member, and earlier rows are kept |
| ChatsController.KeepsMembers | app/controllers/chats_controller.rb:210-216 | appending rows keeps every existing membership of the chat |
| ChatsController.Edit | app/controllers/chats_controller.rb:99-104 | the edit page is shown exactly for an accessible group chat; a missing chat is 404 |
| ChatsController.Update | app/controllers/chats_controller.rb:107-119 | after the guards, only a group chat is renamed, only to a valid name; otherwise 422 and nothing changes |
| ChatsController.Destroy | app/controllers/chats_controller.rb:122-130 | only the creator or an admin deletes; the chat goes with its memberships, messages, reactions and receipts |
| ChatsController.AddMember | app/controllers/chats_controller.rb:133-144 | only in a group chat and for an existing user, who then holds exactly one membership |
| ChatsController.RemoveMember | app/controllers/chats_controller.rb:147-164 | only in a group chat and for an existing user; the creator goes only when an admin removes them |
| ChatsController.Leave | app/controllers/chats_controller.rb:167-175 | a direct chat cannot be left; otherwise the current user's membership goes |
| Memberships.UnreadCount | app/models/chat_membership.rb:29-33 | the unread count never exceeds the number of messages |
| Memberships.HasUnreadIffCount | app/models/chat_membership.rb:22-26 | with a cursor, `unread_messages?` holds exactly when the unread count is positive |
| Memberships.NoCursorAlwaysUnread | app/models/chat_membership.rb:22-26 | without a cursor the answer is yes even for an empty chat, while the count is 0 |
| Memberships.OwnMessageNeverCounts | app/models/chat_membership.rb:29-33 | a user's own new message does not change that user's unread count |
| Memberships.ReadUpToNow | app/models/chat_membership.rb:36-38 | after the cursor moves past every message, nothing is unread |
| Memberships.LaterCursorFewerUnread | app/models/chat_membership.rb:29-33 | a later cursor never shows more unread messages, and no cursor shows the most |
| Memberships.Find | app/models/chat.rb:81 | the membership found is the user's in the chat; none exactly when the user is not a member |
| Memberships.CountForUnique | app/models/chat_membership.rb:13 | with unique keys a user holds one membership of a chat it is in, none otherwise |
| Memberships.CountFor | app/models/chat_membership.rb:13 | never more memberships of a user in a chat than rows |
| Memberships.Without | app/models/chat.rb:75-77 | exactly the rows other than the removed memberships, never more rows |
| Memberships.WithNotifications | app/models/chat_membership.rb:16 | exactly the memberships with notifications enabled |
| Memberships.Receivers | app/services/mention_service.rb:85 | the users wanting notifications for a chat are exactly those holding a membership of it with notifications enabled |
| Memberships.ToggleFlipsReceiver | app/models/chat_membership.rb:41-43 | toggling a member's flag turns that member's notifications for the chat on or off |
| Memberships.UnreadCountFor | app/models/chat.rb:80-89 | 0 for a non-member, otherwise the unread rule with the member's cursor |
| Memberships.IsMemberUnaffected | app/models/chat_membership.rb:13 | memberships appended for other chats leave a chat's memberships as they were |
| Memberships.MembershipTable.AddMember | app/models/chat.rb:70-72 | an existing membership is kept untouched, otherwise one is appended; afterwards the user is a member |
| Memberships.MembershipTable.RemoveMember | app/models/chat.rb:75-77 | only that user's membership of the chat goes, and the user is no longer a member |
| Memberships.MembershipTable.MarkAsRead | app/models/chat.rb:92-95 | the member's cursor moves to now; nothing changes for a non-member |
| Memberships.MembershipTable.ToggleNotifications | app/models/chat_membership.rb:41-43 | only that membership's flag is negated |
| Memberships.MembershipTable.RemoveChat | app/models/chat.rb:13 | exactly the chat's memberships go |
| Messages.ErrorsFor | app/models/message.rb:166-178 | an attachment adds no error exactly when it is within 100 MB and of an allowed type |
| Messages.AttachmentErrors | app/models/message.rb:166-178 | at most two errors per attachment |
| Messages.AttachmentErrorsEmpty | app/models/message.rb:166-178 | the attachment validation passes exactly when every file is within the size limit and of an allowed type |
| Messages.ValidateAttachments | app/models/message.rb:166-178 | the loop adds the errors of every attachment, in order |
| Messages.FullMessages | app/models/message.rb:31-33 | no error messages exactly when the content is valid; blank content without attachments gives the presence message first |
| Messages.AttachmentMessages | app/models/message.rb:166-178 | every attachment error is prefixed with "Attachments " |
| Messages.DisplayContent | app/models/message.rb:134-136 | a deleted message shows "[Message deleted]", any other its content |
| Messages.ReplyCountZero | app/models/message.rb:79-81 | the reply count is 0 exactly when every reply to the parent is deleted |
| Messages.ReplyCountAfterSoftDelete | app/models/message.rb:64-66 | soft-deleting a live reply takes exactly one off its parent's reply count |
| Messages.HasReplies | app/models/message.rb:74-76 | holds exactly when some message names the parent, deleted replies included |
| Messages.Surviving | app/models/message.rb:25 | the chat's messages go and every surviving reply to a destroyed message is detached |
| Messages.MessageTable.FindInChat | app/controllers/messages_controller.rb:83-85 | the message with the id, only when it belongs to the chat |
| Messages.MessageTable.Create | app/models/message.rb:31-33 | a valid message is appended under a fresh id; an invalid one changes nothing |
| Messages.MessageTable.SoftDelete | app/models/message.rb:64-66 | only `deleted_at` is set, to now |
| Messages.MessageTable.Edit | app/models/message.rb:89-91 | valid new content replaces the old one and marks the message edited; invalid content changes nothing |
| Messages.MessageTable.DestroyChat | app/models/chat.rb:15 | the destroyed ids are the chat's, and the rows are the survivors |
| Messages.MessageTable.SetMentionedUserIds | app/services/mention_service.rb:32 | only that message's mentioned ids change |
| Messages.SurvivingKeepsValid | app/models/message.rb:25 | destroying a chat keeps message ids unique and every survivor valid |
| Messages.FindById | app/models/message.rb:24 | the message with the id; none only when no message has it |
| MessagesController.Create | app/controllers/messages_controller.rb:20-44 | a saved message moves its sender's cursor to now; an invalid one is not stored and the joined errors come back |
| MessagesController.Refusal | app/controllers/messages_controller.rb:91-101 | the action runs exactly when the chat is accessible, the message is in it and it is the user's own or the user is admin |
| MessagesController.Update | app/controllers/messages_controller.rb:47-65 | past the guards the content is edited when valid; otherwise "Failed to update message" and nothing changes |
| MessagesController.Destroy | app/controllers/messages_controller.rb:68-75 | past the guards the message is soft-deleted at now with "Message deleted" |
| Reactions.IndexOfKey | app/models/message_reaction.rb:34 | the reaction with the key; none exactly when the user has not reacted with that emoji |
| Reactions.IndexOfId | app/controllers/message_reactions_controller.rb:42 | the reaction with the id; none exactly when no reaction has it |
| Reactions.ReactedByIffKey | app/models/message.rb:114-116 | `reacted_by?` is exactly membership of the key |
| Reactions.ForEmoji | app/models/message_reaction.rb:37 | exactly the reactions with the emoji |
| Reactions.ByUser | app/models/message_reaction.rb:38 | exactly the reactions of the user |
| Reactions.Bump | app/models/message_reaction.rb:48-50 | counting one more reaction raises exactly that emoji's count by one |
| Reactions.ListedIffCounted | app/models/message_reaction.rb:48-50 | an emoji is listed exactly when its count is positive |
| Reactions.NotListedCountsZero | app/models/message_reaction.rb:48-50 | an emoji not listed has count 0 |
| Reactions.ZeroCountNotListed | app/models/message_reaction.rb:48-50 | an emoji with count 0 is not listed |
| Reactions.GroupedCounts | app/models/message.rb:109-111 | each emoji on the message is listed once with its number of reactions, and the counts add up to the message's reactions |
| Reactions.ReactionTable.Add | app/models/message.rb:99-101 | an existing reaction is returned untouched; a new one is stored unless its emoji is blank |
| Reactions.ReactionTable.Remove | app/models/message.rb:104-106 | the reaction with the key goes, if there is one |
| Reactions.ReactionTable.DestroyAt | app/controllers/message_reactions_controller.rb:41-52 | one reaction goes and exactly its key leaves the key set |
| Reactions.ReactionTable.DestroyForMessages | app/models/message.rb:26 | exactly the reactions of the destroyed messages go |
| Reactions.RemoveKeyed | app/models/message_reaction.rb:34 | removing one row keeps keys unique and takes exactly its key out |
| Reactions.Toggled | app/controllers/message_reactions_controller.rb:23-32 | the key is in the result exactly when it was not, and no other key changes |
| Reactions.ToggleTwice | app/controllers/message_reactions_controller.rb:23-32 | toggling the same key twice restores the key set |
| MessageReactionsController.Refusal | app/controllers/message_reactions_controller.rb:56-68 | the action runs exactly when the chat exists and is accessible and the message belongs to it |
| MessageReactionsController.Create | app/controllers/message_reactions_controller.rb:15-38 | past the guards, a blank emoji is 422; otherwise the user's reaction with that emoji is toggled |
| MessageReactionsController.Destroy | app/controllers/message_reactions_controller.rb:41-52 | a reaction not on the message is 404; it is destroyed only by its owner or an admin, with the same answer either way |
| Receipts.IndexOfReceipt | app/models/message.rb:124-126 | the user's receipt for the message; none exactly when the user has not read it |
| Receipts.ReceiptCountUnique | app/models/message_read_receipt.rb:14 | a user holds one receipt for a message read, none otherwise |
| Receipts.ForMessage | app/models/message_read_receipt.rb:17 | exactly the receipts of the message |
| Receipts.ByUser | app/models/message_read_receipt.rb:18 | exactly the receipts of the user |
| Receipts.Recent | app/models/message_read_receipt.rb:19 | the same receipts, newest first |
| Receipts.ReceiptTable.MarkReadBy | app/models/message.rb:119-121 | an existing receipt is kept untouched, otherwise one stamped now is added; the user then holds exactly one |
| Receipts.ReceiptTable.DestroyForMessages | app/models/message.rb:27 | exactly the receipts of the destroyed messages go |
| Notifications.TypeErrorsAsWritten | app/models/notification.rb:14-22 | the type passes exactly when it is "thread_reply" or "mention" |
| Notifications.TypeErrors | app/models/notification.rb:14-22 | the type passes exactly when it is one of the accepted types, "event_reminder" included |
| Notifications.ReminderTypeRejectedAsWritten | app/jobs/event_reminder_job.rb:17 | the reminder type fails the validation as written and passes the corrected one; no other type differs |
| Notifications.Description | app/models/notification.rb:60-69 | a reply or mention text naming the actor, and a generic text for any other type |
| Notifications.UnreadCount | app/models/notification.rb:25 | 0 exactly when every notification of the user is read |
| Notifications.UnreadIds | app/models/notification.rb:75 | exactly the ids of the user's unread notifications, as many as the unread count |
| Notifications.AllReadFor | app/models/notification.rb:74-84 | the user's unread notifications are stamped now and nothing else changes |
| Notifications.AllReadForCounts | app/models/notification.rb:74-84 | afterwards the user has nothing unread and every other user's count is unchanged |
| Notifications.MarkOneCount | app/models/notification.rb:47-52 | stamping one unread notification takes exactly one off its recipient's count |
| Notifications.AllReadForValid | app/models/notification.rb:74-84 | the bulk update keeps the table invariant |
| Notifications.IndexFor | app/controllers/notifications_controller.rb:52-54 | the notification with the id, only when it is the user's own |
| Notifications.NotificationTable.Create | app/models/notification.rb:14-22 | a type outside the corrected list stores nothing; an accepted one stores an unread notification and announces it to the recipient with the new count |
| Notifications.NotificationTable.MarkRead | app/models/notification.rb:47-52 | an unread notification is stamped now and a read event goes out; a read one is left alone |
| Notifications.MarkAll | app/models/notification.rb:75 | the row-by-row update gives the bulk update: exactly the user's unread rows get the time, in place |
| Notifications.NotificationTable.MarkAllReadFor | app/models/notification.rb:74-84 | the rows become the bulk update, and the event lists exactly the ids that were unread |
| NotificationService.CreateThreadReplyNotification | app/services/notification_service.rb:12-41 | past the guards, the parent's author among the chat's receivers, and without a duplicate, exactly the thread-reply notification to that author is created; otherwise nothing changes |
| Mentions.MatchAt | app/services/mention_service.rb:13 | a match exactly where the pattern starts; its first word is a capitalised name |
| Mentions.NamesFrom | app/services/mention_service.rb:66-68 | every extracted name is a capitalised name |
| Mentions.ExtractNames | app/services/mention_service.rb:66-68 | every extracted name is a capitalised name |
| Mentions.NoAtNoNames | app/services/mention_service.rb:66-68 | text without "@" mentions nobody |
| Mentions.SingleMention | app/services/mention_service.rb:66-68 | a lone "@Name" yields exactly that name |
| Mentions.FindMentionedUsers | app/services/mention_service.rb:71-76 | exactly the chat members whose first name was mentioned; nobody for no names |
| Mentions.IdsOf | app/services/mention_service.rb:32 | the ids of the mentioned users, in order |
| Mentions.CreateMentionNotifications | app/services/mention_service.rb:79-102 | every mentioned user other than the author who is among the chat's receivers ends up notified once, never twice; no one else is notified |
| Mentions.NotifyOne | app/services/mention_service.rb:80-101 | one turn of the loop: a user who is not the author and is among the chat's receivers is notified, at most one row is added |
| Mentions.Process | app/services/mention_service.rb:21-36 | names are matched only against members of the message's chat; nothing is written for blank content or no mentioned member; otherwise the message's ids become the matched members' ids, every matched member other than the author who receives the chat's notifications gets a mention notification, and each added row is a new mention notification from the author about the message to such a member |
| Mentions.StripPlain | app/services/mention_service.rb:40-61 | text without "<" passes the tag removal untouched |
| Mentions.HighlightStrips | app/services/mention_service.rb:53-60 | removing the added spans gives the text back |
| Mentions.StripWrapped | app/services/mention_service.rb:53-60 | removing the tags around a wrapped mention leaves the mention |
| Mentions.HighlightUnmatched | app/services/mention_service.rb:53-60 | without a matching name the highlighter changes nothing |
| Mentions.HighlightFacts | app/services/mention_service.rb:53-60 | the spans strip off, and nothing is wrapped without a matching name |
| Mentions.RenderWithHighlights | app/services/mention_service.rb:40-61 | blank content comes back as it is; otherwise the result is the escaped content plus spans around mentions of mentioned users |
| Mentions.RenderWrapsMention | app/services/mention_service.rb:52-58 | a mention `@Name` of a mentioned user, in text with no other `@` and nothing to escape, comes out as that text with exactly the mention wrapped in `<span class="mention">…</span>` |
| Mentions.HighlightWraps | app/services/mention_service.rb:52-58 | a match whose first word is a mentioned user's name is wrapped in the mention span, and the text before and after it without `@` is copied unchanged |
| MentionsController.MemberToJson | app/controllers/mentions_controller.rb:46-54 | the JSON carries the member's id and first name |
| MentionsController.Suggestions | app/controllers/mentions_controller.rb:15-32 | at most five suggestible members, all of them when fewer, in table order |
| MentionsController.Index | app/controllers/mentions_controller.rb:15-44 | 404 for a missing chat, 403 exactly without access, otherwise the suggestions as JSON |
| MentionsController.NeverSelf | app/controllers/mentions_controller.rb:18-28 | the asker is never offered |
| MentionsController.BlankQueryOffersMembers | app/controllers/mentions_controller.rb:24-28 | a blank query offers the other members, up to five, whatever their names |
| NotificationsController.WholeDays | app/controllers/notifications_controller.rb:82 | whole days with the quotient truncated toward zero, for negative distances too |
| NotificationsController.TimeAgo | app/controllers/notifications_controller.rb:71-84 | "just now" exactly under a minute, then whole minutes, hours and days |
| NotificationsController.Recent | app/controllers/notifications_controller.rb:16-26 | exactly the recipient's notifications, newest first |
| NotificationsController.SortedPrefixNewest | app/controllers/notifications_controller.rb:16-26 | in a list newest first, nothing after a cut is newer than anything before it |
| NotificationsController.Listed | app/controllers/notifications_controller.rb:16-26 | at most 50 of the recipient's own, newest first, all when fewer, none left out newer than one listed |
| NotificationsController.Json | app/controllers/notifications_controller.rb:56-69 | id, type and read flag copied; a reminder has no chat; otherwise the chat is present exactly while the message exists |
| NotificationsController.Index | app/controllers/notifications_controller.rb:16-26 | the listed page as JSON in the same order, with the recipient's unread count |
| NotificationsController.MarkRead | app/controllers/notifications_controller.rb:30-37 | someone else's id is not found; otherwise it is marked read and the recomputed count comes back |
| NotificationsController.MarkAllRead | app/controllers/notifications_controller.rb:41-48 | everything of the user's is marked read and the answer is 0 |
| ChatChannel.Connection.Subscribed | app/channels/chat_channel.rb:20-30 | a missing chat fails; otherwise the chat is remembered and streamed exactly to those with access |
| ChatChannel.Connection.Unsubscribed | app/channels/chat_channel.rb:32-35 | every stream stops |
| ChatChannel.Connection.TypingBroadcast | app/channels/chat_channel.rb:38-47 | a broadcast exactly with a remembered, accessible chat, carrying the sender's id and full name |
| ChatChannel.Connection.MarkRead | app/channels/chat_channel.rb:50-54 | with access the user's cursor moves to now; otherwise nothing |
| ChatChannel.PreviewText | app/channels/chat_channel.rb:97-109 | the display content cut to 40 characters, and the attachment placeholder for a blank preview with attachments |
| ChatChannel.PreviewBroadcast | app/channels/chat_channel.rb:97-109 | one payload for the chat, naming the sender by first name, with that preview |
| ChatChannel.ReactionEventType | app/channels/chat_channel.rb:87-93 | "reaction_" followed by the action |
| Typing.Removed | app/javascript/controllers/chat_controller.js:151-173 | exactly the other entries stay |
| Typing.IndexOfUser | app/javascript/controllers/chat_controller.js:151-173 | the entry of the user; none exactly when the user is not listed |
| Typing.Expired | app/javascript/controllers/chat_controller.js:151-173 | exactly the entries whose timer is not yet due stay |
| Typing.ReceivedEntries | app/javascript/controllers/chat_controller.js:151-173 | the sender's entry is set or removed, every other entry is untouched, the viewer's own events change nothing |
| Typing.ExpiryWindow | app/javascript/controllers/chat_controller.js:151-173 | a typing event keeps the sender listed for exactly 5000 ms |
| Typing.ExpiredKeepsUnique | app/javascript/controllers/chat_controller.js:151-173 | an expiry pass keeps one entry per user |
| Typing.Names | app/javascript/controllers/chat_controller.js:176-199 | the names in the map's order |
| Typing.IndicatorText | app/javascript/controllers/chat_controller.js:176-199 | hidden for nobody, then one name, two names or the number of people |
| Typing.IndicatorCountReadable | app/javascript/controllers/chat_list_controller.js:248-250 | with three or more typers, the number shown reads back as their count |
| ChatView.TypingIndicator.Receive | app/javascript/controllers/chat_controller.js:151-173 | the list takes the received event by the shared typing rules |
| ChatView.TypingIndicator.TimersFire | app/javascript/controllers/chat_controller.js:163-166 | the entries whose timers are due are gone |
| ChatView.TypingIndicator.Text | app/javascript/controllers/chat_controller.js:176-199 | hidden exactly when nobody is typing |
| ChatView.TypingSender.InputChanged | app/javascript/controllers/chat_controller.js:202-232 | the first keystroke sends true and starts the interval; every keystroke moves the stop timer to now + 2000 |
| ChatView.TypingSender.StopTimerFires | app/javascript/controllers/chat_controller.js:224-231 | typing ends, false is sent, the named interval stops |
| ChatView.TypingSender.IntervalsFire | app/javascript/controllers/chat_controller.js:213-217 | every running interval resends true while typing |
| ChatView.TypingSender.SubmitAsWritten | app/javascript/controllers/chat_controller.js:242-253 | typing stops and the stop timer is cancelled, but the interval keeps running |
| ChatView.TypingSender.Submit | app/javascript/controllers/chat_controller.js:242-253 | the corrected submit also stops the interval, so no interval leaks |
| ChatView.IntervalLeak | app/javascript/controllers/chat_controller.js:242-253 | keystroke, submit, keystroke leaves two intervals, and one period sends typing twice |
| ChatView.NoIntervalLeak | app/javascript/controllers/chat_controller.js:242-253 | with the corrected submit the same keystrokes leave one interval, which resends once |
| ChatView.OnEnter | app/javascript/controllers/chat_controller.js:318-339 | Shift+Enter adds a line; Enter submits exactly for non-blank text or held files with previews |
| ChatView.ReplyPreviewAsWritten | app/javascript/controllers/chat_controller.js:283-290 | the content, else the misencoded placeholder, else empty |
| ChatView.ReplyPlaceholderMisencoded | app/javascript/controllers/chat_controller.js:287 | the reply preview of an attachment-only message differs from the sidebar's placeholder |
| ChatView.ReplyPreview | app/javascript/controllers/chat_controller.js:283-290 | the content, else the placeholder the rest of the application uses, else empty |
| ChatView.ReplyBox.StartReply | app/javascript/controllers/chat_controller.js:267-298 | the parent id is set, the box shown with the author and the content line as written, the misencoded placeholder for an attachment-only message |
| ChatView.ReplyBox.CancelReply | app/javascript/controllers/chat_controller.js:301-314 | the parent id and both lines are cleared and the box hidden |
| ChatList.SenderLabel | app/javascript/controllers/chat_list_controller.js:145 | "You" for the viewer's own messages, the sender's name otherwise |
| ChatList.PreviewLine | app/javascript/controllers/chat_list_controller.js:146 | an empty preview shows the attachment placeholder |
| ChatList.PreviewHtmlEscaped | app/javascript/controllers/chat_list_controller.js:149-154 | with both values escaped, every "<" in the markup belongs to the template |
| ChatList.PreviewHtmlInjects | app/javascript/controllers/chat_list_controller.js:149-154 | as written, a tag in the sender's name opens in the markup |
| ChatList.BumpedBadge | app/javascript/controllers/chat_list_controller.js:169-187 | a missing badge starts at "1" |
| ChatList.BadgeCounts | app/javascript/controllers/chat_list_controller.js:169-187 | below 99 a badge counts up by one, from 99 it reads "99+" |
| ChatList.BadgeSaturates | app/javascript/controllers/chat_list_controller.js:169-187 | a "99+" badge stays "99+" |
| ChatList.PathOfChatUrl | app/javascript/controllers/chat_list_controller.js:66-84 | a chat's own URL names that chat |
| ChatList.FrameChatId | app/javascript/controllers/chat_list_controller.js:66-84 | never chat 0; an unreadable parameter gives no chat |
| ChatList.ParamTakesPrecedence | app/javascript/controllers/chat_list_controller.js:66-84 | the parameter wins over the path whenever it is present |
| ChatList.Sidebar.SubscribeToChat | app/javascript/controllers/chat_list_controller.js:108-120 | a chat already subscribed is left alone; a new one gets an empty typing map |
| ChatList.Sidebar.Connect | app/javascript/controllers/chat_list_controller.js:19-36 | every listed chat with a non-zero id is subscribed, nobody typing |
| ChatList.Sidebar.HandleTyping | app/javascript/controllers/chat_list_controller.js:196-221 | the viewer's own events and unknown chats are ignored; otherwise only that chat's map changes |
| ChatList.Sidebar.TimersFire | app/javascript/controllers/chat_list_controller.js:210-213 | the due removal timers fire in every chat |
| ChatList.Sidebar.ItemTypingText | app/javascript/controllers/chat_list_controller.js:223-256 | the preview shows exactly when nobody is typing in the chat |
| ChatList.Sidebar.HandleMessagePreview | app/javascript/controllers/chat_list_controller.js:134-166 | a listed chat's preview is replaced by the markup as written, the sender's name unescaped; another's message in an inactive chat bumps its badge |
| ChatList.Sidebar.SetActiveChat | app/javascript/controllers/chat_list_controller.js:87-106 | exactly this chat is active and its badge goes |
| ChatList.Sidebar.HandleFrameLoad | app/javascript/controllers/chat_list_controller.js:66-84 | the conversation frame activates the listed chat its URL names; anything else changes nothing |
| MentionPicker.MentionQuery | app/javascript/controllers/mention_controller.js:59-60 | a query is the letters after an "@" at the start or after whitespace, up to the cursor |
| MentionPicker.MentionDetected | app/javascript/controllers/mention_controller.js:59-60 | an "@" at the start or after whitespace followed by letters is always detected |
| MentionPicker.SpaceEndsMention | app/javascript/controllers/mention_controller.js:59-60 | a mention followed by a space is no longer being typed |
| MentionPicker.NextIndex | app/javascript/controllers/mention_controller.js:200-205 | one down, wrapping, always a valid index |
| MentionPicker.PreviousIndex | app/javascript/controllers/mention_controller.js:208-215 | one up, wrapping, always a valid index |
| MentionPicker.NextPreviousInverse | app/javascript/controllers/mention_controller.js:200-215 | down then up, or up then down, comes back |
| MentionPicker.Substring | app/javascript/controllers/mention_controller.js:240-267 | within bounds, the slice of the string |
| MentionPicker.Picker.CloseDropdown | app/javascript/controllers/mention_controller.js:190-197 | hidden, nothing selected, no members; the text stays |
| MentionPicker.Picker.HandleInput | app/javascript/controllers/mention_controller.js:53-77 | while a mention is typed its "@" is recorded and a lookup of it is pending; otherwise the dropdown closes |
| MentionPicker.Picker.LookupFires | app/javascript/controllers/mention_controller.js:71-73 | the pending lookup is sent |
| MentionPicker.Picker.LookupAnswered | app/javascript/controllers/mention_controller.js:122-144 | members open the dropdown on the first one; an empty list or a thrown request closes it; a response that is not ok changes nothing |
| MentionPicker.Picker.InsertMention | app/javascript/controllers/mention_controller.js:240-267 | the text from the "@" to the cursor becomes "@First " and the dropdown closes |
| MentionPicker.Picker.Keydown | app/javascript/controllers/mention_controller.js:80-112 | arrows move, Escape closes, Enter and Tab insert; nothing while closed |
| MentionPicker.Picker.SelectItem | app/javascript/controllers/mention_controller.js:232-237 | clicking an entry inserts that member; an index outside the list does nothing |
| MentionPicker.Picker.ClickOutside | app/javascript/controllers/mention_controller.js:115-119 | the dropdown closes and the text stays |
| NotificationBell.BadgeText | app/javascript/controllers/notification_controller.js:111-122 | "99+" above 99, otherwise the count in digits |
| NotificationBell.MarkedRead | app/javascript/controllers/notification_controller.js:275-282 | only the first item with that id becomes read |
| NotificationBell.AllRead | app/javascript/controllers/notification_controller.js:285-292 | every item becomes read |
| NotificationBell.AllReadIdempotent | app/javascript/controllers/notification_controller.js:285-292 | marking everything read twice is marking it once, and a single mark then changes nothing |
| NotificationBell.Bell.constructor | app/javascript/controllers/notification_controller.js:19-38 | closed, the page's count, and one load asked for |
| NotificationBell.Bell.UpdateBadge | app/javascript/controllers/notification_controller.js:111-122 | a positive count is shown capped at "99+", otherwise the badge hides |
| NotificationBell.Bell.Receive | app/javascript/controllers/notification_controller.js:63-91 | a new notification sets the count and is listed only while open; read events set the count and mark items |
| NotificationBell.Bell.Render | app/javascript/controllers/notification_controller.js:161-177 | the list is the answer, with the empty state exactly for an empty answer |
| NotificationBell.Bell.LoadAnswered | app/javascript/controllers/notification_controller.js:94-108 | a success sets count and list; a failure changes nothing |
| NotificationBell.Bell.Toggle | app/javascript/controllers/notification_controller.js:125-143 | the dropdown flips, and opening reloads the list |
| NotificationBell.Bell.Click | app/javascript/controllers/notification_controller.js:154-158 | a click outside closes it; a click inside changes nothing |
| NotificationBell.Bell.ItemClicked | app/javascript/controllers/notification_controller.js:224-234 | a read request for the item is sent and the dropdown closes |
| NotificationBell.Bell.MarkAllAnswered | app/javascript/controllers/notification_controller.js:252-272 | on success the count is 0 and every item is read |
| NotificationBell.AllReadClearsBell | app/javascript/controllers/notification_controller.js:72-74 | after the all-read event nothing listed is unread and the badge is hidden |
| AttachmentList.Fitting | app/javascript/controllers/attachment_controller.js:30-53 | exactly the incoming files within the size limit |
| AttachmentList.AcceptedTakesFitting | app/javascript/controllers/attachment_controller.js:30-53 | the held files, then the fitting incoming files, as many as there is room for |
| AttachmentList.AcceptedBounded | app/javascript/controllers/attachment_controller.js:30-53 | the list keeps the held files, never passes the maximum and admits only files within the limit |
| AttachmentList.Picked.constructor | app/javascript/controllers/attachment_controller.js:19-22 | no files held |
| AttachmentList.Picked.Add | app/javascript/controllers/attachment_controller.js:30-53 | the files become the accepted list |
| AttachmentList.Picked.Remove | app/javascript/controllers/attachment_controller.js:56-69 | every file except the one at the index stays, in order |
| AttachmentList.Picked.Clear | app/javascript/controllers/attachment_controller.js:72-76 | no files are held |
| AttachmentList.KindOf | app/javascript/controllers/attachment_controller.js:145-156 | image by the "image/" prefix, video by "video/", anything else a document |
| AttachmentList.Slice | app/javascript/controllers/attachment_controller.js:277 | within bounds, the slice; a negative end counts from the end |
| AttachmentList.Extension | app/javascript/controllers/attachment_controller.js:276 | what follows the last dot, holding no dot |
| AttachmentList.DotlessIsOwnExtension | app/javascript/controllers/attachment_controller.js:276 | a name without a dot is its own extension |
| AttachmentList.ShortenedShape | app/javascript/controllers/attachment_controller.js:277-279 | a prefix, "..." and the extension, exactly the limit long |
| AttachmentList.TruncateFilenameAsWritten | app/javascript/controllers/attachment_controller.js:274-280 | a short name is kept; a long one ends with "..." and its split extension |
| AttachmentList.TruncatedDottedName | app/javascript/controllers/attachment_controller.js:274-280 | a dotted name whose extension fits comes out exactly the limit long |
| AttachmentList.DotlessNameGrows | app/javascript/controllers/attachment_controller.js:274-280 | "IMG12345678" cut at 10 comes out as a 20-character name |
| AttachmentList.FileExtension | app/javascript/controllers/attachment_controller.js:276 | none for a dotless name, otherwise the split extension |
| AttachmentList.TruncateFilename | app/javascript/controllers/attachment_controller.js:274-280 | a short name is kept; a long one ends with "..." and its real extension |
| AttachmentList.TruncateFilenameFits | app/javascript/controllers/attachment_controller.js:274-280 | the corrected name never exceeds the limit |
| Lightbox.FindUrl | app/javascript/controllers/lightbox_controller.js:20-38 | the first image with the URL; none only when no image has it |
| Lightbox.NextOf | app/javascript/controllers/lightbox_controller.js:106-112 | the next index is always a valid index |
| Lightbox.PreviousOf | app/javascript/controllers/lightbox_controller.js:97-103 | the previous index is always a valid index |
| Lightbox.StepsOn | app/javascript/controllers/lightbox_controller.js:106-112 | any number of "next" presses stays a valid index |
| Lightbox.StepsAreRemainders | app/javascript/controllers/lightbox_controller.js:97-112 | the steps are the controller's remainders `(i + 1) % n` and `(i - 1 + n) % n` |
| Lightbox.StepsInverse | app/javascript/controllers/lightbox_controller.js:97-112 | on then back, or back then on, returns to the same image |
| Lightbox.StepsOnWrap | app/javascript/controllers/lightbox_controller.js:106-112 | up to a full round, k presses move k places, wrapping once |
| Lightbox.FullRound | app/javascript/controllers/lightbox_controller.js:106-112 | n presses of "next" return to the start |
| Lightbox.CounterText | app/javascript/controllers/lightbox_controller.js:115-139 | the counter reads back as the one-based position |
| Lightbox.Viewer.Display | app/javascript/controllers/lightbox_controller.js:115-139 | the counter shows the position and the caption the sender when there is one |
| Lightbox.Viewer.Open | app/javascript/controllers/lightbox_controller.js:20-38 | the page's images, starting at the clicked URL or the first, shown and listening, with the counter at that position |
| Lightbox.Viewer.Close | app/javascript/controllers/lightbox_controller.js:76-94 | closes only for the backdrop or a close control |
| Lightbox.Viewer.Next | app/javascript/controllers/lightbox_controller.js:106-112 | one on with the counter updated, and a no-op with fewer than two images |
| Lightbox.Viewer.Previous | app/javascript/controllers/lightbox_controller.js:97-103 | one back with the counter updated, and a no-op with fewer than two images |
| Lightbox.Viewer.Keydown | app/javascript/controllers/lightbox_controller.js:142-154 | Escape closes, the arrows step back and on and update the counter |
| ColorMode.CurrentMode | app/javascript/controllers/theme_controller.js:86-88 | the stored mode, else the value, else "system"; never empty |
| ColorMode.NextMode | app/javascript/controllers/theme_controller.js:39-52 | light to dark, dark to system, anything else to light |
| ColorMode.ToggleCycles | app/javascript/controllers/theme_controller.js:39-52 | three toggles come back to a mode of the cycle; a toggle always changes the mode |
| ColorMode.Switch.constructor | app/javascript/controllers/theme_controller.js:19-27 | the theme is applied from what is stored |
| ColorMode.Switch.Apply | app/javascript/controllers/theme_controller.js:72-81 | the theme is applied and nothing stored changes |
| ColorMode.Switch.SetMode | app/javascript/controllers/theme_controller.js:57-67 | the mode is stored, becomes current and applied, and is sent only for a signed-in page |
| ColorMode.Switch.Toggle | app/javascript/controllers/theme_controller.js:39-52 | the current mode becomes the next one, sent to the server when signed in |
| ColorMode.Switch.SystemChanged | app/javascript/controllers/theme_controller.js:93-97 | the OS preference is applied only in system mode |
| ColorMode.OsPreferenceOnlyInSystemMode | app/javascript/controllers/theme_controller.js:72-81 | outside system mode the OS preference does not change the applied theme |
| Themes.Color | app/models/theme.rb:64-66 | the value under the key, nothing without colours |
| Themes.MissingKeys | app/models/theme.rb:141 | exactly the required light keys the map lacks |
| Themes.FormatErrors | app/models/theme.rb:146-152 | no messages exactly when every value is a colour |
| Themes.StructureErrors | app/models/theme.rb:132-153 | nothing for blank colours, "must be a hash" for a non-hash, otherwise missing keys and bad values |
| Themes.StructureAccepted | app/models/theme.rb:132-153 | the check passes exactly when every light key is present and every value is a colour |
| Themes.ValidateColorsStructure | app/models/theme.rb:132-153 | the loop's messages are exactly the structure errors |
| Themes.AppendFormatErrors | app/models/theme.rb:146-152 | the loop appends exactly one message per bad value |
| Themes.Dasherize | app/models/theme.rb:75-87 | every underscore becomes a hyphen and nothing else changes |
| Themes.VariablesMembers | app/models/theme.rb:75-87 | a variable is emitted exactly when some entry contributes it |
| Themes.Variable | app/models/theme.rb:79-83 | an entry contributes at most a variable under its own key |
| Themes.LightVariables | app/models/theme.rb:75-87 | in light mode exactly the keys not ending in `_dark`, with their own values |
| Themes.DarkVariables | app/models/theme.rb:75-87 | in dark mode each light key takes its present `_dark` variant's value |
| Themes.ToCssVariables | app/models/theme.rb:75-87 | "" for blank colours, else one declaration per emitted entry, one per line |
| Themes.CollectVariables | app/models/theme.rb:75-87 | the loop collects exactly the emitted variables |
| Themes.DefaultColorsComplete | app/models/theme.rb:97-118 | the built-in palette has every required key |
| Themes.DefaultColorsWellFormed | app/models/theme.rb:97-118 | every built-in value is a colour, so the palette passes the structure check |
| Themes.DefaultCount | app/models/theme.rb:36 | 0 exactly when no theme is the default |
| Themes.NoneDefault | app/models/theme.rb:70 | every flag cleared and nothing else changed |
| Themes.ThemeTable.MakeDefaultAsWritten | app/models/theme.rb:69-72 | flags cleared; the theme becomes the only default only when it was not the default already; when it was, or the save is refused, no default is left |
| Themes.ThemeTable.MakeDefault | app/models/theme.rb:69-72 | as intended: flags cleared, then the theme saved as the only default; a refused save leaves no default |
| Themes.ThemeTable.Save | app/models/theme.rb:156-159 | an invalid theme is refused; one turning default clears every other flag |
| Themes.AtMostOneDefault | app/models/theme.rb:156-159 | at most one theme is the default |
| Text.StripIdempotent | app/models/user.rb:165 | stripping twice is stripping once |
| Text.Downcase | app/models/user.rb:165 | same length, every character lowercased |
| Text.Upcase | app/models/user.rb:80 | same length, every character uppercased |
| Text.SplitOn | app/models/user.rb:46 | splitting always yields at least one piece, empty pieces kept |
| Text.HtmlEscapeAppend | app/services/mention_service.rb:44 | escaping a concatenation escapes each part |
| Text.NatToString | app/javascript/controllers/chat_list_controller.js:175 | a non-empty string of decimal digits |
| Text.IntToString | app/controllers/notifications_controller.rb:82 | the decimal notation, with a leading minus for negative numbers |
| Text.ParseInt | app/javascript/controllers/chat_list_controller.js:173 | a number is read only from text holding a digit |
| Text.HtmlEscape | app/services/mention_service.rb:44 | the escaped text holds no `<`, `>` or `"` |
| Text.HtmlEscapePlain | app/services/mention_service.rb:44 | text without markup characters comes through unchanged |
| Text.Truncate | app/channels/chat_channel.rb:98 | unchanged when it fits, otherwise the limit long, ending "..." after the original prefix |
| Text.DigitsValueOfNatToString | app/javascript/controllers/chat_list_controller.js:175-180 | decimal notation reads back as the number |
| Text.ParseIntOfNatToString | app/javascript/controllers/chat_list_controller.js:175-180 | `parseInt` reads back a number's notation, whatever follows it |
| Sorting.SortBy | app/controllers/events_controller.rb:129 | ordered by the key and a permutation of the input |
| Calendar.DaysInMonth | app/controllers/events_controller.rb:25 | 28 to 31 days, February having 29 exactly in leap years |
| Calendar.DayNumberFacts | app/controllers/events_controller.rb:25 | the day count starts at 1970-01-01, and the days of a month follow each other |
| Calendar.WeekStart | app/controllers/events_controller.rb:23 | the Monday on or before the day |
| Calendar.Weekday | app/controllers/events_controller.rb:23 | a weekday from 0 (Monday) to 6 |
| Calendar.DaysTile | app/models/event.rb:29-31 | a time lies between the first day's start and the last day's end exactly when its day is in range |
| Calendar.ViewRange | app/controllers/events_controller.rb:22-26 | the range holds the date: a Monday-first week, the day alone, or the month |
| Calendar.MonthRangeLength | app/controllers/events_controller.rb:25 | a month's range has as many days as the month |
| Events.Errors | app/models/event.rb:17-21 | title present and at most 255, a start, a hex colour, a known visibility, an end after the start |
| Events.SavedEventTimes | app/models/event.rb:75-78 | a saved event starts, and ends strictly after it starts when it ends |
| Events.VisibleTo | app/models/event.rb:24-28 | exactly the public events, the user's own, and those the user answered |
| Events.PrivateEventsHidden | app/models/event.rb:24-28 | a private event neither created nor answered by the user stays hidden |
| Events.Between | app/models/event.rb:29-31 | exactly the events starting on one of the days; an event without a start never |
| Events.IndexOf | app/controllers/events_controller.rb:103-105 | the event with the id; none only when no event has it |
| Events.EventTable.Create | app/controllers/events_controller.rb:59 | a valid event is stored under a fresh id; otherwise nothing changes and the errors come back |
| Events.EventTable.Update | app/controllers/events_controller.rb:81 | the event takes the new attributes when they validate, keeping its id and creator |
| Events.EventTable.Destroy | app/controllers/events_controller.rb:93 | the event goes and every other row stays in order |
| EventOccurrences.EndAt | app/models/event_occurrence.rb:22-26 | none when the event has no end, otherwise the start moved on by the event's duration |
| EventOccurrences.OccurrenceEndsAfterStart | app/models/event_occurrence.rb:22-26 | an occurrence of a saved event that ends ends strictly after it starts |
| EventOccurrences.OccurrenceFacts | app/models/event_occurrence.rb:13-45 | occurrences are recurring occurrences sharing their event's id and attributes |
| EventOccurrences.OccurrencesBetween | app/models/event.rb:56-61 | a non-recurring event stands for itself; a recurring one gives one occurrence per scheduled time |
| EventRsvps.ScopesPartition | app/models/event_rsvp.rb:27-29 | a valid status falls in exactly one scope, any other in none |
| EventRsvps.ScopeCounts | app/models/event_rsvp.rb:27-29 | over valid answers the three scope counts add up to the number of answers |
| EventRsvps.Find | app/controllers/event_rsvps_controller.rb:14 | the user's answer to the event; none exactly when there is none |
| EventRsvps.Errors | app/models/event_rsvp.rb:23-24 | a status error exactly for a status outside the four, a user error exactly for a second answer |
| EventRsvps.OneAnswerEach | app/models/event_rsvp.rb:24 | in a valid table a user has at most one answer per event |
| EventRsvps.RsvpTable.Respond | app/controllers/event_rsvps_controller.rb:14-19 | saved exactly for a valid status; the answer is overwritten or appended, and the event's list is re-broadcast |
| EventRsvps.RsvpTable.DestroyForEvent | app/models/event.rb:12 | exactly the event's answers go |
| EventRsvpsController.AlertText | app/controllers/event_rsvps_controller.rb:24 | the joined full messages, with the presence message for a blank status |
| EventRsvpsController.Create | app/controllers/event_rsvps_controller.rb:13-33 | 404 for a missing event; otherwise the user's answer is updated in place or appended with the status and note, every other row unchanged, or the refusal is reported unchanged |
| EventRsvpsController.AnswerFound | app/controllers/event_rsvps_controller.rb:14 | in a valid table an answer is the row the lookup finds for its event and user |
| EventRsvpsController.AnswerGrantsVisibility | app/models/event.rb:27 | any user who answers an event can see it from then on |
| EventReminders.CalculateRemindAt | app/models/event_reminder.rb:44-47 | with a start and minutes, the reminder time is that many minutes before the start |
| EventReminders.Errors | app/models/event_reminder.rb:28-29 | errors exactly for missing or non-positive minutes and a missing reminder time |
| EventReminders.SavedReminderPrecedesEvent | app/models/event_reminder.rb:32 | a saved reminder fires strictly before its event |
| EventReminders.PresetsAhead | app/models/event_reminder.rb:16-21 | every preset saves and reminds its minutes ahead |
| EventReminders.PendingUpcomingSplit | app/models/event_reminder.rb:35-36 | the two scopes never share a reminder and together hold every unsent one |
| EventReminders.IndexOf | app/jobs/event_reminder_job.rb:5 | the reminder with the id; none only when no reminder has it |
| EventReminders.ReminderTable.Create | app/models/event_reminder.rb:28-52 | a valid, new reminder is stored with its time and a job at that time; a duplicate or invalid one changes nothing |
| EventReminders.ReminderTable.MarkSent | app/jobs/event_reminder_job.rb:25 | only that reminder's sent flag is set |
| EventReminders.ReminderTable.DestroyForEvent | app/models/event.rb:14 | exactly the event's reminders go |
| EventReminderJob.Due | app/jobs/event_reminder_job.rb:5-11 | a reminder is due exactly when it exists, is unsent and its event exists |
| EventReminderJob.PerformAsWritten | app/jobs/event_reminder_job.rb:4-26 | skipped when not due, otherwise create! raises; no reminder is ever delivered |
| EventReminderJob.Perform | app/jobs/event_reminder_job.rb:4-26 | a due reminder yields one unread notification from the event's creator and is marked sent; otherwise nothing changes |
| EventReminderJob.PerformTwice | app/jobs/event_reminder_job.rb:4-26 | a second run is skipped and adds nothing |
| EventsController.Piece | app/controllers/events_controller.rb:122-128 | a recurring event contributes its occurrences, any other itself |
| EventsController.ExpandedSingles | app/controllers/events_controller.rb:120-130 | a non-recurring event is listed as often as given, a recurring one never |
| EventsController.ExpandedMembers | app/controllers/events_controller.rb:120-130 | exactly the non-recurring events and every occurrence of the recurring ones |
| EventsController.ExpandRecurring | app/controllers/events_controller.rb:120-130 | the expansion, sorted by start, as a permutation |
| EventsController.SelectedAsWritten | app/controllers/events_controller.rb:28-30 | visible events whose first start lies in range, recurring ones included |
| EventsController.RecurringSeriesMissedAsWritten | app/controllers/events_controller.rb:28-33 | a weekly series begun the week before is missing from this week's view |
| EventsController.Selected | app/controllers/events_controller.rb:28-33 | visible events starting in range, and every visible recurring event |
| EventsController.RecurringOccurrencesListed | app/controllers/events_controller.rb:28-33 | every occurrence in the window is listed, and a single event exactly when visible and in range |
| EventsController.Index | app/controllers/events_controller.rb:18-34 | the date defaults to today and the view to month; the listing is sorted and holds the expansion of the visible events whose first start lies in range |
| EventsController.Authorize | app/controllers/events_controller.rb:107-111 | the creator or an admin passes; anyone else gets "Not authorized." |
| EventsController.Create | app/controllers/events_controller.rb:55-68 | the event is built for the current user; a saved one may get a reminder at the asked minutes or 60 |
| EventsController.Update | app/controllers/events_controller.rb:79-89 | 404 for a missing event, refused for a stranger, otherwise saved or 422 |
| EventsController.Destroy | app/controllers/events_controller.rb:92-99 | 404 for a missing event, refused for a stranger, otherwise the event goes with its answers and reminders |

## Left out

- Rendering: HTML partials, Turbo Stream markup, DOM element creation, scrolling, CSS classes, toasts and the notification item markup are not modelled. Broadcasts are recorded as payload values.
- Action Cable and the network: the subscription transport, `fetch` requests and the CSRF handshake are modelled only as recorded requests and their answers, given as parameters.
- Time: timestamps are whole seconds and the current time is a parameter. Time zones are ignored. Browser timers are explicit "fires" methods.
- Recurrence: the ice_cube schedule is a parameter `occurs` giving an event's occurrence times for a window; the schedule format itself is not modelled.
- `Date.parse` of the `date` parameter: the model receives an already parsed date.
- Encryption of message content, Active Storage uploads, avatars and avatar URLs, the ISO 8601 formatting of times and `human_file_size` are left out.
- Character classes are ASCII only: `strip`, `downcase`, `\s` and `[A-Z]` have no Unicode behaviour here.
- SQL `LIKE` wildcards in the mention query: a `%` or `_` typed by the user is matched literally.
- Users.UserErrors: `URI::MailTo::EMAIL_REGEXP` is written out as the predicate `Text.IsEmailAddress` over ASCII characters, not matched as a regular expression.
- Sorting.SortBy: Ruby's `sort_by` promises no order among equal keys, and neither does the contract; the definition puts them in reverse input order, one of the orders Ruby may produce.
- EventRsvpsController.Create: a missing `status` parameter is the empty string, which fails the same validations as nil.
- EventsController.Update: the attributes come as one full event record rather than a sparse parameter hash.
- The `data` payload of reminder notifications (title, start, minutes) is not stored.
- Reminders: the `belongs_to` presence errors are not modelled, because the callers always pass an existing event and user.
- `new`, `show`, `edit` and `index` pages that only render are modelled only by their guards.
- The DailyReminderCheckJob is not part of this model.
- Themes.Color: the source raises on colours that are not a hash, so the model requires a hash or blank.
- ChatView.OnEnter: the file input and preview counts are parameters.
- ChatChannel.Connection.Subscribed: a failed `Chat.find` is the outcome `ChatMissing`.
- NotificationsController.TimeAgo: fractional seconds are not modelled.
- ChatList.Sidebar.HandleMessagePreview: the timestamp update is not modelled.
- AttachmentList.Picked.Add: the alerts for files that are refused are not modelled.
- AttachmentList.Picked.Add: the count badge and button state are not modelled.
- AttachmentList.Picked.Add: `drop` runs the same loop, and the synchronisation of the hidden DataTransfer is not modelled.
- Lightbox.Viewer.Display: the caption is not cleared when the sender is empty, so it can show a previous image's sender. The model keeps the old caption in that case, as the source does.
- MentionPicker.Picker.LookupAnswered: member names are written into the dropdown as HTML without escaping. The model holds them as values, so it states nothing about markup.
- EventRsvpsController.Create: the action checks only that the event exists, not that the user may see it. AnswerGrantsVisibility shows that answering a private event by id makes it visible. The model keeps this behaviour.
- Themes.ThemeTable.MakeDefault: a failed save after the flags are cleared leaves no default theme. The model keeps this behaviour.
- Notifications.NotificationTable.Create: validates against the corrected type list, which holds "event_reminder"; as written, app/models/notification.rb:14 refuses that type, which Notifications.TypeErrorsAsWritten and EventReminderJob.PerformAsWritten model.
- Notifications.NotificationTable.Create: the `after_create_commit` broadcast (app/models/notification.rb:32, 88-104) counts `user.notifications.unread` (line 103), an association `User` does not declare; as written `create!` stores the row and then raises NoMethodError. The model reads the association as the recipient's own rows and returns normally.
- Notifications.NotificationTable.MarkRead: `broadcast_notification_read` (app/models/notification.rb:108-115) reads the same missing `user.notifications` (line 113); as written `mark_read!` stamps `read_at` and then raises NoMethodError. The model stamps `read_at` and returns normally.
- EventReminderJob.Perform: besides the type refused at app/models/notification.rb:14, the creation broadcast raises NoMethodError on `user.notifications` (app/models/notification.rb:103) before `reminder.update!(sent: true)` (app/jobs/event_reminder_job.rb:25) runs. The corrected member assumes the association exists and marks the reminder sent.
- NotificationsController.Index: `User` declares no `notifications` association, so as written `current_user.notifications` raises NoMethodError; the model reads it as the notifications whose user is the current user.
- NotificationsController.MarkRead: the same missing `notifications` association; as written the lookup raises NoMethodError, and the model reads it as the user's own notifications.
- NotificationsController.MarkAllRead: the same missing `notifications` association; as written the action raises NoMethodError.
- Notifications.NotificationTable.MarkAllReadFor: `user.notifications` (app/models/notification.rb:75-76) is the same missing association; as written `mark_all_read_for` raises NoMethodError.
- EventsController.Create: `User` declares no `created_events` association (it is commented out), so as written the action raises NoMethodError; the model builds the event with the current user as creator.
- NotificationService.CreateThreadReplyNotification: `User` does not define `should_receive_notification?`, so as written every reply that passes the earlier guards raises NoMethodError; the model reads it as `Memberships.Receivers`, a membership of the chat with notifications enabled.
- Mentions.NotifyOne: the same undefined `should_receive_notification?`, read as `Memberships.Receivers`; as written the first mentioned user other than the author raises NoMethodError.
- Mentions.CreateMentionNotifications: the same undefined `should_receive_notification?`, read as `Memberships.Receivers`.
- Mentions.Process: inherits the undefined `should_receive_notification?` from the notification loop, read as `Memberships.Receivers`.
- Users.UserErrors: the 72-byte maximum that `has_secure_password` puts on a password is not modelled.
- EventReminders.ReminderTable.Create: a duplicate of the unique index is the error value `idx_reminders_unique`; the database raises `RecordNotUnique` instead of returning validation errors.

## Findings

| source | as written | input that shows it | evidently intended | confidence | as-written member | corrected member |
|---|---|---|---|---|---|---|
| app/javascript/controllers/chat_controller.js:287 | the reply placeholder is the paperclip emoji's UTF-8 bytes read as Windows-1252, i.e. mojibake | replying to a message that has attachments and no text | the "📎 Attachment" placeholder used at app/channels/chat_channel.rb:99 | high; not executed | ChatView.ReplyPreviewAsWritten, ChatView.ReplyPlaceholderMisencoded, ChatView.ReplyBox.StartReply | ChatView.ReplyPreview |
| app/javascript/controllers/attachment_controller.js:274-280 | a name without a dot is taken as its own extension, so shortening lengthens it | "IMG12345678" with limit 10 gives "IMG123...IMG12345678" | a shortened name no longer than the limit | high; not executed | AttachmentList.TruncateFilenameAsWritten, AttachmentList.DotlessNameGrows | AttachmentList.TruncateFilename, AttachmentList.TruncateFilenameFits |
| app/jobs/event_reminder_job.rb:17 | the job creates a notification of type "event_reminder", which app/models/notification.rb:14 does not list, so `create!` raises and the reminder is never marked sent | any due reminder | a reminder notification is stored and the reminder marked sent | high; not executed | Notifications.TypeErrorsAsWritten, Notifications.ReminderTypeRejectedAsWritten, EventReminderJob.PerformAsWritten | Notifications.TypeErrors, EventReminderJob.Perform |
| app/javascript/controllers/chat_controller.js:242-253 | submitting clears the stop timer but not the resend interval, so intervals pile up | a keystroke, a submit, then another keystroke | one interval at a time | medium; not executed | ChatView.TypingSender.SubmitAsWritten, ChatView.IntervalLeak | ChatView.TypingSender.Submit, ChatView.NoIntervalLeak |
| app/javascript/controllers/chat_list_controller.js:149-154 | the sender's name goes into `innerHTML` without escaping, while the preview text is escaped | a first name "&lt;b&gt;" | the name escaped like the text | high; not executed | ChatList.PreviewHtmlAsWritten, ChatList.PreviewHtmlInjects, ChatList.Sidebar.HandleMessagePreview | ChatList.PreviewHtml, ChatList.PreviewHtmlEscaped |
| app/controllers/events_controller.rb:28-33 | `between` filters by an event's first start before recurring events are expanded, so a series begun before the range never shows | a weekly event first starting the week before the viewed week | every occurrence in the range is listed | high; not executed | EventsController.SelectedAsWritten, EventsController.RecurringSeriesMissedAsWritten, EventsController.Index | EventsController.Selected, EventsController.RecurringOccurrencesListed |
| app/models/theme.rb:69-72 | `update_all` clears the flags in the table but not in the loaded theme, so for the current default `update!(is_default: true)` changes nothing and writes nothing, and the `before_save` at app/models/theme.rb:156-159 returns early | `make_default!` on the theme that is already the default | that theme stays the one default | medium; not executed | Themes.ThemeTable.MakeDefaultAsWritten | Themes.ThemeTable.MakeDefault |
